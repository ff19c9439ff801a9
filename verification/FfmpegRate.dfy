/**
 * The duplicate/drop engine of do_video_out in fftools/ffmpeg.c as functions over the stream state, with the rate
 * control in reals, and the laws it keeps over any run of pictures.
 */
module FfmpegRate {

  import opened Basics

  // ---- rounding ------------------------------------------------------------------------------------------

  /** lrint: to the nearest integer, halves to even. */
  function Rint(x: real): int {
    var f := x.Floor;
    var d := x - f as real;
    if d < 0.5 || (d == 0.5 && f % 2 == 0) then f else f + 1
  }

  lemma RintNear(x: real)
    ensures -0.5 <= x - Rint(x) as real <= 0.5
  {
  }

  lemma RintAbove(x: real, n: int)
    requires x >= n as real
    ensures Rint(x) >= n
  {
    assert x.Floor >= n;
  }

  lemma RintAtLeastOne(x: real)
    requires x > 0.5
    ensures Rint(x) >= 1
  {
  }

  // ---- the state --------------------------------------------------------------------------------------------

  datatype Vsync = PASSTHROUGH | CFR | VFR | VSCFR | DROP

  /**
   * `maxFrames` None: no -frames limit; `limit`: the first pts past the recording time; `dupLimit`: thirty times
   * dts_error_threshold.
   */
  datatype Config = Config(mode: Vsync, dropThreshold: real, maxFrames: Option<nat>, dupLimit: real, limit: Option<int>)

  /** A picture as the rate control sees it: its time in encoder ticks and its duration. */
  datatype Picture = Picture(ipts: real, duration: real)

  /** A frame handed to the encoder: its pts and which received picture it shows. */
  datatype Frame = Frame(pts: int, pic: nat)

  datatype Stream = Stream(syncOpts: int, frameNumber: nat, nb0s: (int, int, int), lastDropped: bool, last: Option<nat>,
                           dup: int, drop: int, received: nat, sent: seq<Frame>)

  const START := Stream(0, 0, (0, 0, 0), false, None, 0, 0, 0, [])

  function MidPred(a: int, b: int, c: int): int {
    if a > b then (if c > b then (if c > a then a else c) else b)
    else if b > c then (if c > a then c else a) else b
  }

  /** The rate decision: frames to output, how many of them repeat the previous picture, and the new counter. */
  datatype Rate = Rate(nb: int, nb0: int, syncOpts: int)

  /** The decision once drift and span are known: the CFR case, which VSCFR falls into. */
  function CfrRate(cfg: Config, st: Stream, delta0: real, delta: real, sync: int): Rate {
    if cfg.dropThreshold != 0.0 && delta < cfg.dropThreshold && st.frameNumber != 0 then Rate(0, 0, sync)
    else if delta < -1.1 then Rate(0, 0, sync)
    else if delta > 1.1 then Rate(Rint(delta), if delta0 > 1.1 then Rint(delta0 - 0.6) else 0, sync)
    else Rate(1, 0, sync)
  }

  function Decide(cfg: Config, st: Stream, p: Picture): Rate {
    var s := st.syncOpts as real;
    var d0 := p.ipts - s;
    var delta := d0 + p.duration;
    var clip := d0 < 0.0 && delta > 0.0 && cfg.mode != PASSTHROUGH && cfg.mode != DROP;
    var ipts := if clip then s else p.ipts;
    var duration := if clip then p.duration + d0 else p.duration;
    var delta0 := if clip then 0.0 else d0;
    match cfg.mode
    case VSCFR =>
      if st.frameNumber == 0 && delta0 >= 0.5 then CfrRate(cfg, st, 0.0, duration, Rint(ipts))
      else CfrRate(cfg, st, delta0, delta, st.syncOpts)
    case CFR => CfrRate(cfg, st, delta0, delta, st.syncOpts)
    case VFR =>
      if delta <= -0.6 then Rate(0, 0, st.syncOpts)
      else if delta > 0.6 then Rate(1, 0, Rint(ipts))
      else Rate(1, 0, st.syncOpts)
    case DROP => Rate(1, 0, Rint(ipts))
    case PASSTHROUGH => Rate(1, 0, Rint(ipts))
  }

  /**
   * The decision of one call, cut down to the frame limit. A call without a picture repeats the median of the last
   * three.
   */
  function Limited(cfg: Config, st: Stream, next: Option<Picture>): Rate {
    var m := MidPred(st.nb0s.0, st.nb0s.1, st.nb0s.2);
    var r := if next.None? then Rate(m, m, st.syncOpts) else Decide(cfg, st, next.value);
    var nb := if cfg.maxFrames.None? then r.nb else Min(r.nb, cfg.maxFrames.value - st.frameNumber);
    Rate(nb, Min(r.nb0, nb), r.syncOpts)
  }

  /** How many pictures the call is the first to show. */
  function Fresh(st: Stream, r: Rate): int {
    One(r.nb0 != 0 && st.lastDropped) + One(r.nb > r.nb0)
  }

  predicate Excess(cfg: Config, st: Stream, r: Rate) {
    r.nb > Fresh(st, r) && r.nb as real > cfg.dupLimit
  }

  function Counted(cfg: Config, st: Stream, next: Option<Picture>, r: Rate): Stream {
    st.(syncOpts := r.syncOpts, nb0s := (r.nb0, st.nb0s.0, st.nb0s.1),
        drop := st.drop + One(r.nb0 == 0 && st.lastDropped),
        dup := st.dup + if r.nb > Fresh(st, r) then r.nb - Fresh(st, r) else 0,
        lastDropped := r.nb == r.nb0 && next.Some?)
  }

  /** The encoding loop from its `i`-th round on; false when it returned early. */
  function Send(cfg: Config, st: Stream, i: int, r: Rate, next: Option<nat>): (o: (Stream, bool))
    decreases r.nb - i
  {
    if i >= r.nb then (st, true)
    else
      var pic := if i < r.nb0 && st.last.Some? then st.last else next;
      if pic.None? || (cfg.limit.Some? && st.syncOpts >= cfg.limit.value) then (st, false)
      else Send(cfg, st.(syncOpts := st.syncOpts + 1, frameNumber := st.frameNumber + 1,
                         sent := st.sent + [Frame(st.syncOpts, pic.value)]), i + 1, r, next)
  }

  /** One call of do_video_out. */
  function Step(cfg: Config, st: Stream, next: Option<Picture>): Stream {
    var r := Limited(cfg, st, next);
    var id := if next.None? then None else Some(st.received);
    var got := st.received + One(next.Some?);
    if Excess(cfg, st, r) then
      st.(syncOpts := r.syncOpts, nb0s := (r.nb0, st.nb0s.0, st.nb0s.1), received := got,
          drop := st.drop + One(r.nb0 == 0 && st.lastDropped) + 1)
    else
      var (s, done) := Send(cfg, Counted(cfg, st, next, r), 0, r, id);
      if done then s.(received := got, last := id) else s.(received := got)
  }

  /** Any sequence of calls. */
  function Run(cfg: Config, st: Stream, calls: seq<Option<Picture>>): Stream {
    if calls == [] then st else Step(cfg, Run(cfg, st, calls[..|calls| - 1]), calls[|calls| - 1])
  }

  // ---- the loop -------------------------------------------------------------------------------------------------

  /** The counters the loop leaves alone. */
  ghost predicate SameCounters(a: Stream, b: Stream) {
    a.nb0s == b.nb0s && a.lastDropped == b.lastDropped && a.last == b.last && a.dup == b.dup && a.drop == b.drop
    && a.received == b.received
  }

  /** The loop sends frames one tick apart, at most what it owes, and exactly that unless it returns early. */
  lemma {:induction false} SendCounts(cfg: Config, st: Stream, i: int, r: Rate, next: Option<nat>)
    requires i <= r.nb
    ensures var (s, done) := Send(cfg, st, i, r, next);
            var k := s.syncOpts - st.syncOpts;
            && 0 <= k <= r.nb - i && (done <==> k == r.nb - i)
            && s.frameNumber == st.frameNumber + k && |s.sent| == |st.sent| + k && SameCounters(st, s)
            && s.sent[..|st.sent|] == st.sent
    decreases r.nb - i
  {
    if i < r.nb {
      var pic := if i < r.nb0 && st.last.Some? then st.last else next;
      if !(pic.None? || (cfg.limit.Some? && st.syncOpts >= cfg.limit.value)) {
        var t := st.(syncOpts := st.syncOpts + 1, frameNumber := st.frameNumber + 1,
                     sent := st.sent + [Frame(st.syncOpts, pic.value)]);
        SendCounts(cfg, t, i + 1, r, next);
        var (s, done) := Send(cfg, t, i + 1, r, next);
        assert s.sent[..|st.sent|] == s.sent[..|t.sent|][..|st.sent|];
      }
    }
  }

  /** The frames the loop sends have consecutive pts, from the counter on. */
  lemma {:induction false} SendPts(cfg: Config, st: Stream, i: int, r: Rate, next: Option<nat>)
    requires i <= r.nb
    ensures var s := Send(cfg, st, i, r, next).0;
            |s.sent| >= |st.sent|
            && forall j :: |st.sent| <= j < |s.sent| ==> s.sent[j].pts == st.syncOpts + (j - |st.sent|)
    decreases r.nb - i
  {
    SendCounts(cfg, st, i, r, next);
    hide SameCounters;
    if i < r.nb {
      var pic := if i < r.nb0 && st.last.Some? then st.last else next;
      if !(pic.None? || (cfg.limit.Some? && st.syncOpts >= cfg.limit.value)) {
        var t := st.(syncOpts := st.syncOpts + 1, frameNumber := st.frameNumber + 1,
                     sent := st.sent + [Frame(st.syncOpts, pic.value)]);
        SendPts(cfg, t, i + 1, r, next);
        SendCounts(cfg, t, i + 1, r, next);
        var s := Send(cfg, t, i + 1, r, next).0;
        assert s.sent[|st.sent|] == s.sent[..|t.sent|][|st.sent|];
      }
    }
  }

  // ---- the decision -----------------------------------------------------------------------------------------------

  ghost predicate WithinLimit(cfg: Config, st: Stream) {
    cfg.maxFrames.Some? ==> st.frameNumber <= cfg.maxFrames.value
  }

  ghost predicate Nb0sOk(st: Stream) {
    st.nb0s.0 >= 0 && st.nb0s.1 >= 0 && st.nb0s.2 >= 0
  }

  lemma DecideRange(cfg: Config, st: Stream, p: Picture)
    ensures Decide(cfg, st, p).nb >= 0 && Decide(cfg, st, p).nb0 >= 0
  {
    var s := st.syncOpts as real;
    var d0 := p.ipts - s;
    var delta := d0 + p.duration;
    if delta > 1.1 { RintAtLeastOne(delta); }
    if p.duration > 1.1 { RintAtLeastOne(p.duration); }
    if p.duration + d0 > 1.1 { RintAtLeastOne(p.duration + d0); }
    if d0 > 1.1 { RintAtLeastOne(d0 - 0.6); }
  }

  lemma LimitedRange(cfg: Config, st: Stream, next: Option<Picture>)
    requires WithinLimit(cfg, st) && Nb0sOk(st)
    ensures 0 <= Limited(cfg, st, next).nb0 <= Limited(cfg, st, next).nb
    ensures cfg.maxFrames.Some? ==> st.frameNumber + Limited(cfg, st, next).nb <= cfg.maxFrames.value
    ensures Fresh(st, Limited(cfg, st, next)) <= Limited(cfg, st, next).nb
  {
    if next.Some? { DecideRange(cfg, st, next.value); }
  }

  /** Frame limit and history stay in range over any run. */
  lemma StepRange(cfg: Config, st: Stream, next: Option<Picture>)
    requires WithinLimit(cfg, st) && Nb0sOk(st)
    ensures WithinLimit(cfg, Step(cfg, st, next)) && Nb0sOk(Step(cfg, st, next))
  {
    LimitedRange(cfg, st, next);
    var r := Limited(cfg, st, next);
    SendCounts(cfg, Counted(cfg, st, next, r), 0, r, if next.None? then None else Some(st.received));
  }

  // ---- drift --------------------------------------------------------------------------------------------------------

  /** The time at which a picture ends, in encoder ticks. */
  function End(p: Picture): real { p.ipts + p.duration }

  /** At most 2.1 ticks ahead of and at most half a tick behind the end `e` of the input frame. */
  ghost predicate OnTime(st: Stream, e: real) {
    -2.1 <= e - st.syncOpts as real <= 0.5
  }

  /** Constant frame rate with nothing that cuts frames off. */
  ghost predicate Unlimited(cfg: Config) {
    cfg.mode == CFR && cfg.dropThreshold == 0.0 && cfg.maxFrames.None? && cfg.limit.None?
  }

  /** One picture, its end not before where the counter already was minus 2.1 ticks, restores the bound. */
  lemma StepOnTime(cfg: Config, st: Stream, p: Picture)
    requires Unlimited(cfg) && Nb0sOk(st) && !Excess(cfg, st, Limited(cfg, st, Some(p)))
    requires End(p) - st.syncOpts as real >= -2.1
    ensures OnTime(Step(cfg, st, Some(p)), End(p))
  {
    LimitedRange(cfg, st, Some(p));
    var r := Limited(cfg, st, Some(p));
    var c := Counted(cfg, st, Some(p), r);
    SendCounts(cfg, c, 0, r, Some(st.received));
    SendCompletes(cfg, c, 0, r, st.received);
    RintNear(End(p) - st.syncOpts as real);
  }

  lemma {:induction false} SendCompletes(cfg: Config, st: Stream, i: int, r: Rate, id: nat)
    requires cfg.limit.None? && i <= r.nb
    ensures Send(cfg, st, i, r, Some(id)).1
    decreases r.nb - i
  {
    if i < r.nb {
      var pic := if i < r.nb0 && st.last.Some? then st.last.value else id;
      SendCompletes(cfg, st.(syncOpts := st.syncOpts + 1, frameNumber := st.frameNumber + 1,
                             sent := st.sent + [Frame(st.syncOpts, pic)]), i + 1, r, id);
    }
  }

  /**
   * In constant rate mode a picture that is not early is first shown at most 1.1 ticks before its time and never after
   * it; one that waits for repeats, 0.1 ticks before it or earlier.
   */
  lemma FirstShownInTime(cfg: Config, st: Stream, p: Picture)
    requires cfg.mode == CFR && p.ipts >= st.syncOpts as real && p.duration >= 0.0
    requires Decide(cfg, st, p).nb > Decide(cfg, st, p).nb0
    ensures var early := p.ipts - (st.syncOpts + Decide(cfg, st, p).nb0) as real;
            0.0 <= early <= 1.1 && (Decide(cfg, st, p).nb0 > 0 ==> 0.1 <= early)
  {
    RintNear(p.ipts - st.syncOpts as real - 0.6);
  }

  /**
   * In variable rate mode the pts given to a picture that is not behind the counter is its time, rounded, or the
   * counter.
   */
  lemma VariableRateTime(cfg: Config, st: Stream, p: Picture)
    requires cfg.mode == VFR && p.ipts >= st.syncOpts as real && p.duration >= 0.0
    ensures var r := Decide(cfg, st, p);
            r.nb == 1 && r.nb0 == 0 && -0.6 <= r.syncOpts as real - p.ipts <= 0.5
  {
    RintNear(p.ipts);
  }

  /** How many frames from the end of the last one to the end of this picture: the nearest number, halves to even. */
  ghost predicate Nearest(n: int, x: real) {
    -0.5 <= x - n as real <= 0.5 && (x - n as real == 0.5 || n as real - x == 0.5 ==> n % 2 == 0)
  }

  /**
   * Which pictures constant rate mode drops, shows once and repeats: it drops those that end more than 1.1 ticks before
   * the counter and, once a frame was sent, those that end before the drop threshold; it shows once those that end
   * within 1.1 ticks of the counter, and fills up to the end of later ones.
   */
  lemma ConstantRateCount(cfg: Config, st: Stream, p: Picture)
    requires cfg.mode == CFR
    ensures var n, ahead := Decide(cfg, st, p).nb, End(p) - st.syncOpts as real;
            var skips := cfg.dropThreshold != 0.0 && st.frameNumber != 0 && ahead < cfg.dropThreshold;
            if ahead < -1.1 || skips then n == 0
            else if ahead <= 1.1 then n == 1
            else Nearest(n, ahead)
  {
    RintNearest(End(p) - st.syncOpts as real);
    hide Rint;
    assert p.ipts - st.syncOpts as real + p.duration == End(p) - st.syncOpts as real;
  }

  lemma RintNearest(x: real)
    ensures Nearest(Rint(x), x)
  {
  }

  /**
   * The first picture of a stream that may start late sets the counter to its own time, rounded, and fills no gap; all
   * other pictures are treated as in constant rate mode.
   */
  lemma LateStartSetsCounter(cfg: Config, st: Stream, p: Picture)
    requires cfg.mode == VSCFR && p.duration >= 0.0
    ensures var r, late := Decide(cfg, st, p), p.ipts - st.syncOpts as real >= 0.5;
            if st.frameNumber == 0 && late
            then Nearest(r.syncOpts, p.ipts) && r.nb0 == 0
                 && if p.duration <= 1.1 then r.nb == 1 else Nearest(r.nb, p.duration)
            else r == Decide(cfg.(mode := CFR), st, p)
  {
    RintNearest(p.ipts);
    RintNearest(p.duration);
    hide Rint;
  }

  /**
   * Which pictures variable rate mode drops: exactly those that end 0.6 ticks or more before the counter. A picture it
   * sends is never late, nor more than 0.6 ticks early: its pts lies between its start and its end, give or take 0.6.
   */
  lemma VariableRateInTime(cfg: Config, st: Stream, p: Picture)
    requires cfg.mode == VFR
    ensures var r := Decide(cfg, st, p);
            && r.nb0 == 0 && r.nb <= 1 && (r.nb == 1 <==> End(p) > st.syncOpts as real - 0.6)
            && (r.nb == 1 && p.duration >= 0.0 ==> p.ipts - 0.6 <= r.syncOpts as real < End(p) + 0.6)
  {
    RintNear(p.ipts);
    RintNear(st.syncOpts as real);
    RintWhole(st.syncOpts);
    hide Rint;
    assert p.ipts - st.syncOpts as real + p.duration == End(p) - st.syncOpts as real;
  }

  lemma RintWhole(n: int)
    ensures Rint(n as real) == n
  {
    assert (n as real).Floor == n;
  }

  /**
   * What a call with a picture sends without a time limit: all decided on, up to the frame limit, unless it is too
   * much.
   */
  lemma PictureSends(cfg: Config, st: Stream, p: Picture)
    requires cfg.limit.None? && WithinLimit(cfg, st) && Nb0sOk(st)
    ensures var n := Decide(cfg, st, p).nb;
            var room := if cfg.maxFrames.None? then n else cfg.maxFrames.value - st.frameNumber;
            var sent := |Step(cfg, st, Some(p)).sent| - |st.sent|;
            sent == if Excess(cfg, st, Limited(cfg, st, Some(p))) then 0 else Min(n, room)
  {
    LimitedRange(cfg, st, Some(p));
    var r := Limited(cfg, st, Some(p));
    var c := Counted(cfg, st, Some(p), r);
    SendCounts(cfg, c, 0, r, Some(st.received));
    SendCompletes(cfg, c, 0, r, st.received);
  }

  /** No call sends more frames than the duplicate limit, unless each of them is the first one to show its picture. */
  lemma DuplicatesBounded(cfg: Config, st: Stream, next: Option<Picture>)
    requires WithinLimit(cfg, st) && Nb0sOk(st)
    ensures var sent, t := |Step(cfg, st, next).sent| - |st.sent|, Step(cfg, st, next);
            sent as real > cfg.dupLimit ==> sent <= 2 && t.dup == st.dup
    ensures var r := Limited(cfg, st, next);
            Step(cfg, st, next).dup > st.dup ==> r.nb as real <= cfg.dupLimit
  {
    LimitedRange(cfg, st, next);
    var r := Limited(cfg, st, next);
    SendCounts(cfg, Counted(cfg, st, next, r), 0, r, if next.None? then None else Some(st.received));
  }

  /** In variable rate mode every frame any run sends shows its picture in time. */
  lemma {:induction false} VariableRateRun(cfg: Config, ps: seq<Picture>)
    requires cfg.mode == VFR && forall k :: 0 <= k < |ps| ==> ps[k].duration >= 0.0
    ensures var t := Run(cfg, START, Calls(ps));
            && t.received == |ps| && WithinLimit(cfg, t) && Nb0sOk(t)
            && forall i :: 0 <= i < |t.sent| ==>
                 var f := t.sent[i];
                 f.pic < |ps| && ps[f.pic].ipts - 0.6 <= f.pts as real < End(ps[f.pic]) + 0.6
    decreases |ps|
  {
    hide Step, Decide, Limited, Nb0sOk, WithinLimit;
    StartInRange(cfg);
    if ps != [] {
      var n := |ps| - 1;
      assert Calls(ps[..n]) == Calls(ps)[..n];
      VariableRateRun(cfg, ps[..n]);
      var st := Run(cfg, START, Calls(ps)[..n]);
      StepRange(cfg, st, Some(ps[n]));
      VariableRateStep(cfg, st, ps[n]);
      var t := Step(cfg, st, Some(ps[n]));
      forall i | 0 <= i < |t.sent| ensures t.sent[i].pic < |ps| && InTime(t.sent[i], ps[t.sent[i].pic]) {
        if i < |st.sent| { assert t.sent[i] == t.sent[..|st.sent|][i] == st.sent[i]; }
      }
    }
  }

  ghost predicate InTime(f: Frame, p: Picture) { p.ipts - 0.6 <= f.pts as real < End(p) + 0.6 }

  lemma VariableRateStep(cfg: Config, st: Stream, p: Picture)
    requires cfg.mode == VFR && p.duration >= 0.0 && WithinLimit(cfg, st) && Nb0sOk(st)
    ensures var t := Step(cfg, st, Some(p));
            && t.received == st.received + 1 && |st.sent| <= |t.sent| <= |st.sent| + 1 && t.sent[..|st.sent|] == st.sent
            && (|t.sent| > |st.sent| ==> t.sent[|st.sent|].pic == st.received && InTime(t.sent[|st.sent|], p))
            && (cfg.limit.None? && cfg.maxFrames.None? ==>
                  (|t.sent| > |st.sent| <==> End(p) > st.syncOpts as real - 0.6))
  {
    VariableRateInTime(cfg, st, p);
    LimitedRange(cfg, st, Some(p));
    hide Decide;
    var r := Limited(cfg, st, Some(p));
    var c := Counted(cfg, st, Some(p), r);
    assert r.nb0 == 0 && 0 <= r.nb <= 1 && !Excess(cfg, st, r);
    assert cfg.maxFrames.None? ==> r.nb == Decide(cfg, st, p).nb;
    SendCounts(cfg, c, 0, r, Some(st.received));
    if r.nb == 1 { SendOne(cfg, c, r, st.received); }
    hide Send, Excess, Limited;
  }

  /**
   * At the end the number of repeats is the median of the last three: no more than two of them are smaller, or greater.
   */
  lemma FlushRepeatsMedian(cfg: Config, st: Stream)
    requires cfg.maxFrames.None?
    ensures var (a, b, c) := st.nb0s;
            var m := Limited(cfg, st, None).nb;
            && m == Limited(cfg, st, None).nb0
            && One(a < m) + One(b < m) + One(c < m) <= 1 && One(a > m) + One(b > m) + One(c > m) <= 1
            && (m == a || m == b || m == c)
  {
  }

  ghost predicate EndsAscend(st: Stream, ps: seq<Picture>) {
    (ps != [] ==> End(ps[0]) >= st.syncOpts as real)
    && forall i :: 0 < i < |ps| ==> End(ps[i - 1]) <= End(ps[i])
  }

  function Calls(ps: seq<Picture>): (c: seq<Option<Picture>>)
    ensures |c| == |ps|
  {
    seq(|ps|, i requires 0 <= i < |ps| => Some(ps[i]))
  }

  /** No call of the run hits the limit on duplicates. */
  ghost predicate NoExcess(cfg: Config, st: Stream, calls: seq<Option<Picture>>) {
    forall n :: 0 <= n < |calls| ==>
      !Excess(cfg, Run(cfg, st, calls[..n]), Limited(cfg, Run(cfg, st, calls[..n]), calls[n]))
  }

  /** CFR drift bound: after every picture of a run with non-decreasing end times. */
  lemma {:induction false} DriftBound(cfg: Config, ps: seq<Picture>)
    requires Unlimited(cfg) && EndsAscend(START, ps) && NoExcess(cfg, START, Calls(ps)) && ps != []
    ensures OnTime(Run(cfg, START, Calls(ps)), End(ps[|ps| - 1]))
    ensures Nb0sOk(Run(cfg, START, Calls(ps)))
  {
    hide Step, Limited, Excess, Decide, Rint, Nb0sOk;
    var n := |ps| - 1;
    var cs := Calls(ps);
    assert Calls(ps[..n]) == cs[..n];
    assert cs[..n + 1] == cs;
    var st := Run(cfg, START, cs[..n]);
    if n > 0 {
      assert NoExcess(cfg, START, cs[..n]) by {
        forall k | 0 <= k < n
          ensures !Excess(cfg, Run(cfg, START, cs[..n][..k]), Limited(cfg, Run(cfg, START, cs[..n][..k]), cs[..n][k]))
        {
          assert cs[..n][..k] == cs[..k];
        }
      }
      DriftBound(cfg, ps[..n]);
    }
    StepOnTime(cfg, st, ps[n]);
    StepRange(cfg, st, cs[n]);
  }

  /** The first picture ends, and each further one ends after the one before, within `gap` ticks. */
  ghost predicate GapsWithin(ps: seq<Picture>, gap: real) {
    (ps != [] ==> End(ps[0]) <= gap) && forall i :: 0 < i < |ps| ==> End(ps[i]) - End(ps[i - 1]) <= gap
  }

  lemma CloseIsNoExcess(cfg: Config, st: Stream, p: Picture)
    requires Unlimited(cfg) && End(p) - st.syncOpts as real + 0.5 <= cfg.dupLimit
    ensures !Excess(cfg, st, Limited(cfg, st, Some(p)))
  {
    RintNear(End(p) - st.syncOpts as real);
    hide Rint;
    assert p.ipts - st.syncOpts as real + p.duration == End(p) - st.syncOpts as real;
  }

  /** Pictures ending at most the duplicate limit less one tick apart never hit it. */
  lemma {:induction false} SmallGapsNoExcess(cfg: Config, ps: seq<Picture>)
    requires Unlimited(cfg) && EndsAscend(START, ps) && GapsWithin(ps, cfg.dupLimit - 1.0)
    ensures NoExcess(cfg, START, Calls(ps))
    decreases |ps|
  {
    hide Step, Limited, Excess, Decide, Rint, Nb0sOk;
    if ps != [] {
      var n := |ps| - 1;
      var cs := Calls(ps);
      assert Calls(ps[..n]) == cs[..n];
      SmallGapsNoExcess(cfg, ps[..n]);
      var st := Run(cfg, START, cs[..n]);
      if n > 0 { DriftBound(cfg, ps[..n]); } else { assert st == START; }
      CloseIsNoExcess(cfg, st, ps[n]);
      forall k | 0 <= k <= n
        ensures !Excess(cfg, Run(cfg, START, cs[..k]), Limited(cfg, Run(cfg, START, cs[..k]), cs[k]))
      {
        if k < n { assert cs[..n][..k] == cs[..k] && cs[..n][k] == cs[k]; }
      }
    }
  }

  /** The drift bound in terms of the input alone. */
  lemma SmallGapsDrift(cfg: Config, ps: seq<Picture>)
    requires Unlimited(cfg) && EndsAscend(START, ps) && GapsWithin(ps, cfg.dupLimit - 1.0) && ps != []
    ensures OnTime(Run(cfg, START, Calls(ps)), End(ps[|ps| - 1]))
  {
    SmallGapsNoExcess(cfg, ps);
    DriftBound(cfg, ps);
  }

  // ---- frame accounting ---------------------------------------------------------------------------------------------

  /** Sent plus dropped (counted or pending) minus received plus duplicated: zero when the report adds up. */
  function Imbalance(st: Stream): int {
    |st.sent| + st.drop + One(st.lastDropped) - st.received - st.dup
  }

  /**
   * The frames a call does not send of those it decided on: all of them when there is no picture and no previous one,
   * none without a time limit, and otherwise those past the limit.
   */
  function Owed(cfg: Config, st: Stream, next: Option<Picture>): int {
    var r := Limited(cfg, st, next);
    if next.None? && st.last.None? then r.nb
    else if cfg.limit.None? then 0
    else r.nb - Min(r.nb, Max(0, cfg.limit.value - r.syncOpts))
  }

  lemma {:induction false} SendOwes(cfg: Config, st: Stream, i: int, r: Rate, next: Option<nat>)
    requires 0 <= i <= r.nb && (next.None? ==> r.nb0 == r.nb)
    ensures |Send(cfg, st, i, r, next).0.sent| - |st.sent|
         == if next.None? && st.last.None? then 0
            else if cfg.limit.None? then r.nb - i
            else Min(r.nb - i, Max(0, cfg.limit.value - st.syncOpts))
    decreases r.nb - i
  {
    if i < r.nb {
      var pic := if i < r.nb0 && st.last.Some? then st.last else next;
      if !(pic.None? || (cfg.limit.Some? && st.syncOpts >= cfg.limit.value)) {
        SendOwes(cfg, st.(syncOpts := st.syncOpts + 1, frameNumber := st.frameNumber + 1,
                          sent := st.sent + [Frame(st.syncOpts, pic.value)]), i + 1, r, next);
      }
    }
  }

  /**
   * What one call adds to the imbalance, exactly: an excess with a pending drop adds one, an early return subtracts
   * what it owed.
   */
  function Defect(cfg: Config, st: Stream, next: Option<Picture>): int {
    var r := Limited(cfg, st, next);
    if Excess(cfg, st, r) then One(r.nb0 == 0 && st.lastDropped) + (if next.None? then 1 else 0)
    else -Owed(cfg, st, next)
  }

  lemma StepBalance(cfg: Config, st: Stream, next: Option<Picture>)
    requires WithinLimit(cfg, st) && Nb0sOk(st)
    ensures Imbalance(Step(cfg, st, next)) == Imbalance(st) + Defect(cfg, st, next)
  {
    LimitedRange(cfg, st, next);
    var r := Limited(cfg, st, next);
    assert next.None? ==> r.nb0 == r.nb;
    hide Limited, Decide, WithinLimit, Nb0sOk, Send;
    if !Excess(cfg, st, r) {
      var c, id := Counted(cfg, st, next, r), if next.None? then None else Some(st.received);
      SendCounts(cfg, c, 0, r, id);
      SendOwes(cfg, c, 0, r, id);
      var s := Send(cfg, c, 0, r, id).0;
      assert |s.sent| == |st.sent| + r.nb - Owed(cfg, st, next);
    }
  }

  /**
   * The loop sends every frame decided on: there is a picture to send, and the last of them is before the time limit.
   */
  ghost predicate SendsAll(cfg: Config, st: Stream, next: Option<Picture>) {
    var r := Limited(cfg, st, next);
    r.nb > 0 ==> (next.Some? || st.last.Some?) && (cfg.limit.Some? ==> r.syncOpts + r.nb <= cfg.limit.value)
  }

  /**
   * One call keeps the balance if and only if it sends all it owes or, past the duplicate limit, drops one picture
   * only.
   */
  lemma StepKeepsBalance(cfg: Config, st: Stream, next: Option<Picture>)
    requires WithinLimit(cfg, st) && Nb0sOk(st)
    ensures var r := Limited(cfg, st, next);
            Imbalance(Step(cfg, st, next)) == Imbalance(st) <==>
            if Excess(cfg, st, r) then next.Some? && (r.nb0 != 0 || !st.lastDropped) else SendsAll(cfg, st, next)
  {
    hide Step, Decide;
    LimitedRange(cfg, st, next);
    StepBalance(cfg, st, next);
  }

  /** A call that neither hits the duplicate limit nor leaves the loop early. */
  ghost predicate Complete(cfg: Config, st: Stream, next: Option<Picture>) {
    !Excess(cfg, st, Limited(cfg, st, next)) && SendsAll(cfg, st, next)
  }

  lemma CompleteSends(cfg: Config, st: Stream, next: Option<Picture>)
    requires WithinLimit(cfg, st) && Nb0sOk(st) && Complete(cfg, st, next)
    ensures var r, id := Limited(cfg, st, next), if next.None? then None else Some(st.received);
            Send(cfg, Counted(cfg, st, next, r), 0, r, id).1
  {
    LimitedRange(cfg, st, next);
    var r := Limited(cfg, st, next);
    var c, id := Counted(cfg, st, next, r), if next.None? then None else Some(st.received);
    SendCounts(cfg, c, 0, r, id);
    SendOwes(cfg, c, 0, r, id);
  }

  ghost predicate AllComplete(cfg: Config, st: Stream, calls: seq<Option<Picture>>) {
    forall n :: 0 <= n < |calls| ==> Complete(cfg, Run(cfg, st, calls[..n]), calls[n])
  }

  lemma AllCompleteInit(cfg: Config, st: Stream, calls: seq<Option<Picture>>)
    requires calls != [] && AllComplete(cfg, st, calls)
    ensures AllComplete(cfg, st, calls[..|calls| - 1])
    ensures Complete(cfg, Run(cfg, st, calls[..|calls| - 1]), calls[|calls| - 1])
  {
    var n := |calls| - 1;
    forall k | 0 <= k < n ensures Complete(cfg, Run(cfg, st, calls[..n][..k]), calls[..n][k]) {
      assert calls[..n][..k] == calls[..k];
    }
  }

  function TotalDefect(cfg: Config, calls: seq<Option<Picture>>): int {
    if calls == [] then 0
    else
      var before := calls[..|calls| - 1];
      TotalDefect(cfg, before) + Defect(cfg, Run(cfg, START, before), calls[|calls| - 1])
  }

  /** Any run, with early returns and excesses: the imbalance at its end is what its calls added. */
  lemma {:induction false} BalanceOfRun(cfg: Config, calls: seq<Option<Picture>>)
    ensures Imbalance(Run(cfg, START, calls)) == TotalDefect(cfg, calls)
    decreases |calls|
  {
    hide Step, Defect;
    if calls != [] {
      var n := |calls| - 1;
      BalanceOfRun(cfg, calls[..n]);
      RunRange(cfg, calls[..n]);
      StepBalance(cfg, Run(cfg, START, calls[..n]), calls[n]);
    }
  }

  /** Frame conservation: at every call boundary sent + dropped + pending equals received + duplicated. */
  lemma {:induction false} Conservation(cfg: Config, calls: seq<Option<Picture>>)
    requires AllComplete(cfg, START, calls)
    ensures Imbalance(Run(cfg, START, calls)) == 0
    decreases |calls|
  {
    if calls != [] {
      var n := |calls| - 1;
      AllCompleteInit(cfg, START, calls);
      Conservation(cfg, calls[..n]);
      RunRange(cfg, calls[..n]);
      StepKeepsBalance(cfg, Run(cfg, START, calls[..n]), calls[n]);
    }
  }

  /**
   * Without a time limit, pictures within the duplicate limit followed by the call at the end of the stream all
   * complete.
   */
  lemma UntimedRunsComplete(cfg: Config, ps: seq<Picture>)
    requires cfg.limit.None? && NoExcess(cfg, START, Calls(ps) + [None])
    ensures AllComplete(cfg, START, Calls(ps) + [None])
  {
    hide Run, Limited, Excess;
    var cs := Calls(ps) + [None];
    forall n | 0 <= n < |cs| ensures Complete(cfg, Run(cfg, START, cs[..n]), cs[n]) {
      if n == |ps| { ReadyToFlush(cfg, ps); }
    }
  }

  /** At the end of the stream there is a previous picture, or nothing to repeat. */
  lemma ReadyToFlush(cfg: Config, ps: seq<Picture>)
    requires cfg.limit.None? && NoExcess(cfg, START, Calls(ps) + [None])
    ensures var st := Run(cfg, START, (Calls(ps) + [None])[..|ps|]);
            st.last.Some? || Limited(cfg, st, None).nb <= 0
  {
    hide Step, Excess, Decide;
    var cs := Calls(ps) + [None];
    var n := |ps|;
    if n > 0 {
      var before := Run(cfg, START, cs[..n - 1]);
      assert cs[..n][n - 1] == cs[n - 1] == Some(ps[n - 1]) && cs[..n][..n - 1] == cs[..n - 1];
      RunRange(cfg, cs[..n - 1]);
      hide Limited;
      PictureIsLast(cfg, before, ps[n - 1]);
    }
  }

  lemma PictureIsLast(cfg: Config, st: Stream, p: Picture)
    requires cfg.limit.None? && WithinLimit(cfg, st) && Nb0sOk(st) && !Excess(cfg, st, Limited(cfg, st, Some(p)))
    ensures Step(cfg, st, Some(p)).last.Some?
  {
    LimitedRange(cfg, st, Some(p));
    var r := Limited(cfg, st, Some(p));
    SendCompletes(cfg, Counted(cfg, st, Some(p), r), 0, r, st.received);
  }

  lemma {:induction false} RunRange(cfg: Config, calls: seq<Option<Picture>>)
    ensures WithinLimit(cfg, Run(cfg, START, calls)) && Nb0sOk(Run(cfg, START, calls))
    decreases |calls|
  {
    hide Step;
    if calls != [] {
      var n := |calls| - 1;
      RunRange(cfg, calls[..n]);
      StepRange(cfg, Run(cfg, START, calls[..n]), calls[n]);
    }
  }

  /** The counts of the last report: print_report adds the pending drop. */
  function FinalDrop(st: Stream): int { st.drop + One(st.lastDropped) }

  lemma FinalReport(cfg: Config, calls: seq<Option<Picture>>)
    requires AllComplete(cfg, START, calls)
    ensures var st := Run(cfg, START, calls);
            |st.sent| == st.received + st.dup - FinalDrop(st)
  {
    Conservation(cfg, calls);
  }

  // ---- what the counters mean ---------------------------------------------------------------------------------------

  /** The received pictures that reached the encoder. */
  function Shown(sent: seq<Frame>): set<nat> {
    if sent == [] then {} else Shown(sent[..|sent| - 1]) + {sent[|sent| - 1].pic}
  }

  /**
   * Pictures shown, dropped and pending add up to the received ones, and frames sent are the first ones and the
   * duplicates, up to an error of `e` pictures; the pending drop stands for the newest picture being unseen.
   */
  ghost predicate MeaningUpTo(st: Stream, e: int) {
    && |Shown(st.sent)| + st.drop + One(st.lastDropped) == st.received + e
    && |st.sent| == |Shown(st.sent)| + st.dup - e
    && (forall p :: p in Shown(st.sent) ==> p < st.received)
    && st.last == (if st.received == 0 then None else Some(st.received - 1))
    && (st.lastDropped <==> st.received > 0 && st.received - 1 !in Shown(st.sent))
    && (st.received == 0 ==> st.sent == [])
  }

  /** Every counter counts what its name says. */
  ghost predicate Meaning(st: Stream) { MeaningUpTo(st, 0) }

  /** All frames of the decision are to repeat a previous frame. */
  predicate RepeatsOnly(r: Rate) { r.nb0 > 0 && r.nb == r.nb0 }

  lemma ShownOneMore(sent: seq<Frame>, f: Frame)
    ensures Shown(sent + [f]) == Shown(sent) + {f.pic}
  {
    assert (sent + [f])[..|sent|] == sent;
  }

  /** The shown set after the loop: the previous picture if any round repeated it, the next one if any round did not. */
  lemma {:induction false} SendShown(cfg: Config, st: Stream, i: int, r: Rate, id: nat)
    requires 0 <= i <= r.nb && Send(cfg, st, i, r, Some(id)).1
    ensures var s := Shown(Send(cfg, st, i, r, Some(id)).0.sent);
            s == Shown(st.sent) + (if i < r.nb0 && i < r.nb then {if st.last.Some? then st.last.value else id} else {})
                                + (if r.nb0 < r.nb && i < r.nb then {id} else {})
    decreases r.nb - i
  {
    hide Shown;
    if i < r.nb {
      var pic := if i < r.nb0 && st.last.Some? then st.last.value else id;
      var t := st.(syncOpts := st.syncOpts + 1, frameNumber := st.frameNumber + 1,
                   sent := st.sent + [Frame(st.syncOpts, pic)]);
      ShownOneMore(st.sent, Frame(st.syncOpts, pic));
      SendShown(cfg, t, i + 1, r, id);
    }
  }

  /** What a picture that is completed does to the counters. */
  ghost predicate Counts(st: Stream, t: Stream, nb: int, nb0: int) {
    && t.received == st.received + 1 && t.last == Some(st.received) && (t.lastDropped <==> nb == nb0)
    && t.drop == st.drop + One(nb0 == 0 && st.lastDropped) && |t.sent| == |st.sent| + nb
    && t.dup == st.dup + nb - One(nb0 != 0 && st.lastDropped) - One(nb > nb0)
    && Shown(t.sent) ==
        Shown(st.sent) + (if nb0 > 0 then {if st.last.Some? then st.last.value else st.received} else {})
                                       + (if nb0 < nb then {st.received} else {})
  }

  lemma StepCounts(cfg: Config, st: Stream, p: Picture)
    requires WithinLimit(cfg, st) && Nb0sOk(st) && Complete(cfg, st, Some(p))
    ensures var r := Limited(cfg, st, Some(p)); 0 <= r.nb0 <= r.nb && Counts(st, Step(cfg, st, Some(p)), r.nb, r.nb0)
  {
    LimitedRange(cfg, st, Some(p));
    var r := Limited(cfg, st, Some(p));
    var c := Counted(cfg, st, Some(p), r);
    SendCounts(cfg, c, 0, r, Some(st.received));
    CompleteSends(cfg, st, Some(p));
    hide Decide, Limited, Shown, WithinLimit, Nb0sOk;
    SendShown(cfg, c, 0, r, st.received);
  }

  /** Size of the shown set after the previous picture `last` (if `again`) and the new one (if `now`) are added. */
  lemma ShownGrows(shown: set<nat>, last: Option<nat>, received: nat, again: bool, now: bool)
    requires forall p :: p in shown ==> p < received
    requires last == (if received == 0 then None else Some(received - 1)) && (again ==> last.Some?)
    ensures var s := shown + (if again then {last.value} else {}) + (if now then {received} else {});
            && |s| == |shown| + One(again && last.value !in shown) + One(now)
            && (forall p :: p in s ==> p < received + 1)
            && (received in s <==> now)
  {
    var mid := shown + (if again then {last.value} else {});
    var s := mid + (if now then {received} else {});
    if again && last.value !in shown { assert |mid| == |shown| + 1; } else { assert mid == shown; }
    if now { assert |s| == |mid| + 1; } else { assert s == mid; }
  }

  /** Unless the first picture of all only repeats, a completed picture leaves the error what it was. */
  lemma CountsMean(st: Stream, t: Stream, nb: int, nb0: int, e: int)
    requires MeaningUpTo(st, e) && 0 <= nb0 <= nb && Counts(st, t, nb, nb0)
    requires st.last.Some? || !RepeatsOnly(Rate(nb, nb0, 0))
    ensures MeaningUpTo(t, e) && t.received == st.received + 1
  {
    hide Shown;
    ShownGrows(Shown(st.sent), st.last, st.received, nb0 > 0 && st.last.Some?, nb0 < nb);
    if nb0 > 0 && st.last.None? {
      assert Shown(t.sent) == Shown(st.sent) + {} + (if nb0 < nb then {st.received} else {});
    }
  }

  /**
   * A picture that only repeats with nothing before it is shown, still marked as dropped, and all its frames count as
   * duplicates.
   */
  ghost predicate ShownAndPending(st: Stream) {
    && Shown(st.sent) == {0} && st.drop == 0 && st.lastDropped && st.received == 1 && st.last == Some(0)
    && |st.sent| == st.dup && st.nb0s.1 == st.nb0s.2 == 0
  }

  lemma FirstRepeats(st: Stream, t: Stream, nb: int, nb0: int)
    requires Meaning(st) && st.last.None? && Counts(st, t, nb, nb0) && RepeatsOnly(Rate(nb, nb0, 0))
    ensures !Meaning(t)
    ensures st.drop == st.dup == 0 ==> Shown(t.sent) == {0} && t.drop == 0 && |t.sent| == t.dup
  {
    assert Shown([]) == {};
  }

  /**
   * One completed picture keeps every counter true to its name, unless it only repeats and there is nothing to repeat.
   */
  lemma StepMeaning(cfg: Config, st: Stream, p: Picture)
    requires WithinLimit(cfg, st) && Nb0sOk(st) && Meaning(st) && Complete(cfg, st, Some(p))
    ensures Meaning(Step(cfg, st, Some(p))) <==> st.last.Some? || !RepeatsOnly(Limited(cfg, st, Some(p)))
  {
    hide Decide, Limited, Shown, Meaning, MeaningUpTo, WithinLimit, Nb0sOk, Step, Counts, Complete;
    StepCounts(cfg, st, p);
    var r := Limited(cfg, st, Some(p));
    MeaningIsUpToZero(st);
    MeaningIsUpToZero(Step(cfg, st, Some(p)));
    if st.last.Some? || !RepeatsOnly(r) {
      CountsMean(st, Step(cfg, st, Some(p)), r.nb, r.nb0, 0);
    } else {
      FirstRepeats(st, Step(cfg, st, Some(p)), r.nb, r.nb0);
    }
  }

  lemma MeaningIsUpToZero(st: Stream)
    ensures Meaning(st) <==> MeaningUpTo(st, 0)
  {
  }

  /**
   * After such a first picture, the second one mends the counters if it repeats, and otherwise one picture is counted
   * twice.
   */
  lemma SecondMeans(st: Stream, t: Stream, nb: int, nb0: int)
    requires ShownAndPending(st) && 0 <= nb0 <= nb && Counts(st, t, nb, nb0)
    ensures MeaningUpTo(t, One(nb0 == 0)) && t.received == st.received + 1
  {
    hide Shown;
    ShownGrows({0}, st.last, st.received, nb0 > 0, nb0 < nb);
  }

  /**
   * In terms of the input: constant rate, a start more than 1.1 ticks late and an end that rounds to no more than its
   * repeats.
   */
  lemma FirstOnlyRepeats(cfg: Config, p: Picture)
    requires cfg.maxFrames.None?
    ensures RepeatsOnly(Limited(cfg, START, Some(p))) <==>
            cfg.mode == CFR && p.ipts > 1.1 && End(p) > 1.1 && Rint(End(p)) <= Rint(p.ipts - 0.6)
  {
    if p.ipts > 1.1 { RintAtLeastOne(p.ipts - 0.6); }
    if End(p) > 1.1 { RintAtLeastOne(End(p)); }
    hide Rint;
    assert p.ipts - START.syncOpts as real == p.ipts;
  }

  // ---- whole runs, up to the report ---------------------------------------------------------------------------------

  /** The state after the first `n` pictures. */
  function After(cfg: Config, ps: seq<Picture>, n: nat): Stream
    requires n <= |ps|
  {
    Run(cfg, START, Calls(ps)[..n])
  }

  /** The first picture has a frame of its own, or the second one repeats it. */
  ghost predicate Mends(cfg: Config, ps: seq<Picture>) {
    || ps == []
    || !RepeatsOnly(Limited(cfg, START, Some(ps[0])))
    || (|ps| >= 2 && Limited(cfg, After(cfg, ps, 1), Some(ps[1])).nb0 != 0)
  }

  /** What holds after `n > 0` pictures. */
  ghost predicate Standing(cfg: Config, ps: seq<Picture>, n: nat)
    requires 0 < n <= |ps|
  {
    var st := After(cfg, ps, n);
    && WithinLimit(cfg, st) && Nb0sOk(st) && st.received == n
    && if !RepeatsOnly(Limited(cfg, START, Some(ps[0]))) then Meaning(st)
       else if n == 1 then ShownAndPending(st)
       else MeaningUpTo(st, One(Limited(cfg, After(cfg, ps, 1), Some(ps[1])).nb0 == 0))
  }

  lemma AfterNext(cfg: Config, ps: seq<Picture>, n: nat)
    requires n < |ps|
    ensures After(cfg, ps, n + 1) == Step(cfg, After(cfg, ps, n), Some(ps[n]))
    ensures n == 0 ==> After(cfg, ps, n) == START
  {
    hide Step;
    var cs := Calls(ps);
    assert cs[..n + 1][..n] == cs[..n] && cs[..n + 1][n] == cs[n];
  }

  lemma StartMeans()
    ensures Meaning(START) && Shown([]) == {}
  {
  }

  lemma FirstStanding(cfg: Config, ps: seq<Picture>)
    requires ps != [] && Complete(cfg, START, Some(ps[0]))
    ensures Standing(cfg, ps, 1)
  {
    hide Step, Limited, Complete, Shown, MeaningUpTo;
    AfterNext(cfg, ps, 0);
    StartMeans();
    StepRange(cfg, START, Some(ps[0]));
    StepCounts(cfg, START, ps[0]);
    StepHistory(cfg, START, ps[0]);
    StepMeaning(cfg, START, ps[0]);
  }

  lemma StepHistory(cfg: Config, st: Stream, p: Picture)
    requires WithinLimit(cfg, st) && Nb0sOk(st)
    ensures Step(cfg, st, Some(p)).nb0s == (Limited(cfg, st, Some(p)).nb0, st.nb0s.0, st.nb0s.1)
  {
    LimitedRange(cfg, st, Some(p));
    var r := Limited(cfg, st, Some(p));
    SendCounts(cfg, Counted(cfg, st, Some(p), r), 0, r, Some(st.received));
  }

  lemma NextStanding(cfg: Config, ps: seq<Picture>, n: nat)
    requires 0 < n < |ps| && Standing(cfg, ps, n) && Complete(cfg, After(cfg, ps, n), Some(ps[n]))
    ensures Standing(cfg, ps, n + 1)
  {
    hide Step, Limited, Complete, Shown, Counts, After, Nb0sOk, WithinLimit;
    AfterNext(cfg, ps, n);
    var st := After(cfg, ps, n);
    StepRange(cfg, st, Some(ps[n]));
    StepCounts(cfg, st, ps[n]);
    var r, t := Limited(cfg, st, Some(ps[n])), Step(cfg, st, Some(ps[n]));
    if RepeatsOnly(Limited(cfg, START, Some(ps[0]))) && n == 1 {
      SecondMeans(st, t, r.nb, r.nb0);
    } else {
      var e := if RepeatsOnly(Limited(cfg, START, Some(ps[0])))
               then One(Limited(cfg, After(cfg, ps, 1), Some(ps[1])).nb0 == 0) else 0;
      CountsMean(st, t, r.nb, r.nb0, e);
    }
  }

  lemma {:induction false} AllStanding(cfg: Config, ps: seq<Picture>, n: nat)
    requires 0 < n <= |ps| && AllComplete(cfg, START, Calls(ps)[..n])
    ensures Standing(cfg, ps, n)
    decreases n
  {
    hide Step, Limited, Complete, Standing;
    var cs := Calls(ps)[..n];
    AllCompleteInit(cfg, START, cs);
    assert cs[..n - 1] == Calls(ps)[..n - 1] && cs[n - 1] == Some(ps[n - 1]);
    if n == 1 {
      assert Run(cfg, START, cs[..0]) == START;
      FirstStanding(cfg, ps);
    } else {
      AllStanding(cfg, ps, n - 1);
      NextStanding(cfg, ps, n - 1);
    }
  }

  /**
   * What the counters mean after any run of completed pictures: each counts what its name says if and only if the first
   * picture did not only repeat, with nothing before it, or the second one repeated it.
   */
  lemma CountersMean(cfg: Config, ps: seq<Picture>)
    requires AllComplete(cfg, START, Calls(ps))
    ensures Meaning(Run(cfg, START, Calls(ps))) <==> Mends(cfg, ps)
  {
    hide Step, Limited, Complete, Shown, AllComplete;
    var cs := Calls(ps);
    if ps == [] {
      StartMeans();
    } else {
      assert cs[..|ps|] == cs;
      AllStanding(cfg, ps, |ps|);
    }
  }

  /** The numbers of the last report, up to an error of `e` pictures: no picture is pending any more. */
  ghost predicate ReportUpTo(st: Stream, e: int) {
    |Shown(st.sent)| + st.drop == st.received + e && |st.sent| == |Shown(st.sent)| + st.dup - e && !st.lastDropped
  }

  lemma {:induction false} FlushShown(cfg: Config, st: Stream, i: int, r: Rate)
    requires 0 <= i <= r.nb == r.nb0 && st.last.Some? && Send(cfg, st, i, r, None).1
    ensures Shown(Send(cfg, st, i, r, None).0.sent) == Shown(st.sent) + (if i < r.nb then {st.last.value} else {})
    decreases r.nb - i
  {
    hide Shown;
    if i < r.nb {
      var t := st.(syncOpts := st.syncOpts + 1, frameNumber := st.frameNumber + 1,
                   sent := st.sent + [Frame(st.syncOpts, st.last.value)]);
      ShownOneMore(st.sent, Frame(st.syncOpts, st.last.value));
      FlushShown(cfg, t, i + 1, r);
    }
  }

  /** What the call at the end of the stream does to the counters: it shows the last picture `m` more times. */
  ghost predicate FlushCounts(st: Stream, t: Stream, m: int) {
    && t.received == st.received && !t.lastDropped && t.drop == st.drop + One(m == 0 && st.lastDropped)
    && |t.sent| == |st.sent| + m && t.dup == st.dup + m - One(m != 0 && st.lastDropped)
    && (m > 0 ==> st.last.Some?)
    && Shown(t.sent) == Shown(st.sent) + (if m > 0 then {st.last.value} else {})
  }

  lemma FlushCounted(cfg: Config, st: Stream)
    requires WithinLimit(cfg, st) && Nb0sOk(st) && Complete(cfg, st, None)
    ensures var m := Limited(cfg, st, None).nb; m >= 0 && FlushCounts(st, Step(cfg, st, None), m)
  {
    LimitedRange(cfg, st, None);
    var r := Limited(cfg, st, None);
    var c := Counted(cfg, st, None, r);
    SendCounts(cfg, c, 0, r, None);
    CompleteSends(cfg, st, None);
    hide Shown, Limited, WithinLimit, Nb0sOk;
    if r.nb > 0 { FlushShown(cfg, c, 0, r); } else { NothingSent(st.sent, Send(cfg, c, 0, r, None).0.sent); }
  }

  lemma NothingSent(a: seq<Frame>, b: seq<Frame>)
    requires |a| == |b| && b[..|a|] == a
    ensures a == b
  {
  }

  lemma FlushMeans(st: Stream, t: Stream, m: int, e: int)
    requires MeaningUpTo(st, e) && m >= 0 && FlushCounts(st, t, m)
    ensures ReportUpTo(t, e)
  {
    hide Shown;
    if m > 0 {
      if st.lastDropped {
        assert |Shown(t.sent)| == |Shown(st.sent)| + 1;
      } else {
        assert Shown(t.sent) == Shown(st.sent);
      }
    }
  }

  lemma FlushPending(cfg: Config, st: Stream, t: Stream)
    requires WithinLimit(cfg, st) && Nb0sOk(st) && ShownAndPending(st) && FlushCounts(st, t, Limited(cfg, st, None).nb)
    ensures ReportUpTo(t, 1)
  {
    hide Shown;
    assert Limited(cfg, st, None).nb == 0;
  }

  /**
   * After the call that ends the stream: shown and dropped pictures add up to the received ones, and the frames beyond
   * the first of each picture are the duplicates reported, if and only if the first picture did not only repeat or the
   * second one mended it.
   */
  lemma ReportMeans(cfg: Config, ps: seq<Picture>)
    requires AllComplete(cfg, START, Calls(ps) + [None])
    ensures ReportUpTo(Run(cfg, START, Calls(ps) + [None]), 0) <==> Mends(cfg, ps)
  {
    hide Step, Limited, Complete, Shown, AllComplete, FlushCounts, Nb0sOk, WithinLimit;
    var cs := Calls(ps) + [None];
    assert cs[..|ps|] == Calls(ps) == Calls(ps)[..|ps|] && cs[|ps|] == None;
    AllCompleteInit(cfg, START, cs);
    var st := Run(cfg, START, Calls(ps));
    StartMeans();
    StartInRange(cfg);
    if ps != [] { AllStanding(cfg, ps, |ps|); }
    FlushCounted(cfg, st);
    var m, t := Limited(cfg, st, None).nb, Step(cfg, st, None);
    if ps == [] || !RepeatsOnly(Limited(cfg, START, Some(ps[0]))) {
      FlushMeans(st, t, m, 0);
    } else if |ps| == 1 {
      FlushPending(cfg, st, t);
    } else {
      FlushMeans(st, t, m, One(Limited(cfg, After(cfg, ps, 1), Some(ps[1])).nb0 == 0));
    }
  }

  lemma StartInRange(cfg: Config)
    ensures WithinLimit(cfg, START) && Nb0sOk(START)
  {
  }

  /**
   * An example of the error: 1.15 ticks late and lasting 0.05, a first picture is output once, and still marked as
   * dropped.
   */
  lemma LateFirstPictureMiscounted()
    ensures var cfg := Config(CFR, 0.0, None, 1000.0, None);
            var p := Picture(1.15, 0.05);
            AllComplete(cfg, START, Calls([p])) && !Meaning(Run(cfg, START, Calls([p])))
            && Run(cfg, START, Calls([p])).lastDropped && Run(cfg, START, Calls([p])).sent == [Frame(0, 0)]
  {
    var cfg := Config(CFR, 0.0, None, 1000.0, None);
    var p := Picture(1.15, 0.05);
    hide Step, Limited, Run, AllComplete, Complete, Calls, Meaning;
    LateDecision(cfg, p);
    LateStep(cfg, p);
    OneCall(cfg, p);
    PendingThoughShown(Step(cfg, START, Some(p)));
  }

  lemma OneCall(cfg: Config, p: Picture)
    requires Complete(cfg, START, Some(p))
    ensures AllComplete(cfg, START, Calls([p])) && Run(cfg, START, Calls([p])) == Step(cfg, START, Some(p))
  {
    hide Step, Complete;
    var cs := Calls([p]);
    assert cs == [Some(p)] && cs[..0] == [];
    assert Run(cfg, START, []) == START;
  }

  lemma PendingThoughShown(t: Stream)
    requires t.sent == [Frame(0, 0)] && t.lastDropped && t.received == 1
    ensures !Meaning(t)
  {
    assert t.sent[..0] == [] && t.sent[0].pic == 0;
    assert Shown(t.sent) == Shown([]) + {0};
  }

  lemma LateDecision(cfg: Config, p: Picture)
    requires cfg == Config(CFR, 0.0, None, 1000.0, None) && p == Picture(1.15, 0.05)
    ensures Limited(cfg, START, Some(p)) == Rate(1, 1, 0)
  {
    assert Rint(1.2) == 1 && Rint(0.55) == 1;
    hide Rint;
    assert p.ipts - START.syncOpts as real == 1.15;
    assert Decide(cfg, START, p) == CfrRate(cfg, START, 1.15, 1.2, 0);
  }

  lemma LateStep(cfg: Config, p: Picture)
    requires cfg.limit.None? && cfg.dupLimit >= 1.0 && Limited(cfg, START, Some(p)) == Rate(1, 1, 0)
    ensures var t := Step(cfg, START, Some(p));
            && t.sent == [Frame(0, 0)] && t.lastDropped && t.received == 1
            && Complete(cfg, START, Some(p))
  {
    hide Limited, Decide, Rint, Send;
    var r := Rate(1, 1, 0);
    var c := Counted(cfg, START, Some(p), r);
    assert c.sent == [] && c.lastDropped && c.last == None && c.syncOpts == 0;
    SendOne(cfg, c, r, 0);
    assert [] + [Frame(0, 0)] == [Frame(0, 0)];
  }

  /** The loop with one round to go, nothing to repeat or the previous frame not there. */
  lemma SendOne(cfg: Config, st: Stream, r: Rate, id: nat)
    requires r.nb == 1 && (r.nb0 <= 0 || st.last.None?)
    ensures Send(cfg, st, 0, r, Some(id))
         == if cfg.limit.Some? && st.syncOpts >= cfg.limit.value then (st, false)
            else (st.(syncOpts := st.syncOpts + 1, frameNumber := st.frameNumber + 1,
                      sent := st.sent + [Frame(st.syncOpts, id)]), true)
  {
    var d := st.(syncOpts := st.syncOpts + 1, frameNumber := st.frameNumber + 1,
                 sent := st.sent + [Frame(st.syncOpts, id)]);
    assert Send(cfg, d, 1, r, Some(id)) == (d, true);
  }

  // ---- timestamps ---------------------------------------------------------------------------------------------------

  /** Every pts sent so far is below the counter, and they ascend. */
  ghost predicate Ascending(st: Stream) {
    (forall i :: 0 <= i < |st.sent| ==> st.sent[i].pts < st.syncOpts)
    && forall i, j :: 0 <= i < j < |st.sent| ==> st.sent[i].pts < st.sent[j].pts
  }

  /** Every pts sent so far is the first one plus its index, and the counter comes next. */
  ghost predicate Consecutive(st: Stream) {
    (forall i :: 0 <= i < |st.sent| ==> st.sent[i].pts == st.syncOpts - (|st.sent| - i))
    && st.frameNumber == |st.sent|
  }

  /**
   * The rate control never moves the counter back in these modes, and in CFR and VSCFR not at all after the first
   * frame.
   */
  lemma DecideCounter(cfg: Config, st: Stream, p: Picture)
    ensures cfg.mode in {CFR, VSCFR, VFR} ==> Decide(cfg, st, p).syncOpts >= st.syncOpts
    ensures cfg.mode == CFR || (cfg.mode == VSCFR && st.frameNumber != 0) ==> Decide(cfg, st, p).syncOpts == st.syncOpts
  {
    if p.ipts >= st.syncOpts as real { RintAbove(p.ipts, st.syncOpts); }
    RintAbove(st.syncOpts as real, st.syncOpts);
  }

  lemma StepAscending(cfg: Config, st: Stream, next: Option<Picture>)
    requires cfg.mode in {CFR, VSCFR, VFR} && WithinLimit(cfg, st) && Nb0sOk(st) && Ascending(st)
    ensures Ascending(Step(cfg, st, next))
  {
    LimitedRange(cfg, st, next);
    if next.Some? { DecideCounter(cfg, st, next.value); }
    var r := Limited(cfg, st, next);
    var c, id := Counted(cfg, st, next, r), if next.None? then None else Some(st.received);
    SendCounts(cfg, c, 0, r, id);
    SendPts(cfg, c, 0, r, id);
    var t := Step(cfg, st, next);
    assert forall i :: 0 <= i < |st.sent| ==> t.sent[i] == t.sent[..|st.sent|][i] == st.sent[i];
  }

  lemma StepConsecutive(cfg: Config, st: Stream, next: Option<Picture>)
    requires cfg.mode in {CFR, VSCFR} && WithinLimit(cfg, st) && Nb0sOk(st) && Consecutive(st)
    ensures Consecutive(Step(cfg, st, next))
  {
    LimitedRange(cfg, st, next);
    if next.Some? { DecideCounter(cfg, st, next.value); }
    var r := Limited(cfg, st, next);
    var c, id := Counted(cfg, st, next, r), if next.None? then None else Some(st.received);
    SendCounts(cfg, c, 0, r, id);
    SendPts(cfg, c, 0, r, id);
    var t := Step(cfg, st, next);
    assert forall i :: 0 <= i < |st.sent| ==> t.sent[i] == t.sent[..|st.sent|][i] == st.sent[i];
  }

  /**
   * Whatever the timestamps, limits and early returns: in CFR, VSCFR and VFR the encoder sees strictly increasing pts,
   * in CFR and VSCFR consecutive ones, and in CFR they start at 0.
   */
  lemma {:induction false} PtsAscend(cfg: Config, calls: seq<Option<Picture>>)
    requires cfg.mode in {CFR, VSCFR, VFR}
    ensures Ascending(Run(cfg, START, calls))
    ensures cfg.mode in {CFR, VSCFR} ==> Consecutive(Run(cfg, START, calls))
    ensures cfg.mode == CFR ==> Run(cfg, START, calls).syncOpts == |Run(cfg, START, calls).sent|
    ensures WithinLimit(cfg, Run(cfg, START, calls)) && Nb0sOk(Run(cfg, START, calls))
    decreases |calls|
  {
    if calls != [] {
      var n := |calls| - 1;
      PtsAscend(cfg, calls[..n]);
      var st := Run(cfg, START, calls[..n]);
      StepRange(cfg, st, calls[n]);
      StepAscending(cfg, st, calls[n]);
      if cfg.mode != VFR { StepConsecutive(cfg, st, calls[n]); }
      if cfg.mode == CFR {
        if calls[n].Some? { DecideCounter(cfg, st, calls[n].value); }
        var r := Limited(cfg, st, calls[n]);
        LimitedRange(cfg, st, calls[n]);
        SendCounts(cfg, Counted(cfg, st, calls[n], r), 0, r, if calls[n].None? then None else Some(st.received));
      }
    }
  }

  // ---- the two remaining modes --------------------------------------------------------------------------------------

  /** Passing timestamps through, and no limit on frames or time. */
  ghost predicate PassesAll(cfg: Config) {
    cfg.mode in {PASSTHROUGH, DROP} && cfg.maxFrames.None? && cfg.limit.None?
  }

  lemma PassOne(cfg: Config, st: Stream, p: Picture)
    requires PassesAll(cfg)
    ensures var t := Step(cfg, st, Some(p));
            t.sent == st.sent + [Frame(Rint(p.ipts), st.received)] && t.received == st.received + 1
            && t.syncOpts == Rint(p.ipts) + 1
  {
    var r := Limited(cfg, st, Some(p));
    assert r == Rate(1, 0, Rint(p.ipts));
    hide Limited, Decide, Rint, Send;
    var c := Counted(cfg, st, Some(p), r);
    SendOne(cfg, c, r, st.received);
  }

  /** Every picture is sent once, in order, at its own time, rounded. */
  lemma {:induction false} PassesThrough(cfg: Config, ps: seq<Picture>)
    requires PassesAll(cfg)
    ensures var t := Run(cfg, START, Calls(ps));
            && |t.sent| == t.received == |ps| && (forall i :: 0 <= i < |ps| ==> t.sent[i] == Frame(Rint(ps[i].ipts), i))
            && t.syncOpts == if ps == [] then 0 else Rint(ps[|ps| - 1].ipts) + 1
    decreases |ps|
  {
    hide Step, Rint;
    if ps != [] {
      var n := |ps| - 1;
      assert Calls(ps[..n]) == Calls(ps)[..n];
      PassesThrough(cfg, ps[..n]);
      PassOne(cfg, Run(cfg, START, Calls(ps)[..n]), ps[n]);
    }
  }

  ghost predicate TimesAscend(ps: seq<Picture>) {
    forall i, j :: 0 <= i < j < |ps| ==> Rint(ps[i].ipts) < Rint(ps[j].ipts)
  }

  /**
   * In these modes the encoder sees strictly increasing pts if and only if the rounded input times strictly increase.
   */
  lemma PassThroughAscends(cfg: Config, ps: seq<Picture>)
    requires PassesAll(cfg)
    ensures Ascending(Run(cfg, START, Calls(ps))) <==> TimesAscend(ps)
  {
    PassesThrough(cfg, ps);
    hide Rint;
    var t := Run(cfg, START, Calls(ps));
    if Ascending(t) {
      forall i, j | 0 <= i < j < |ps| ensures Rint(ps[i].ipts) < Rint(ps[j].ipts) {
        assert t.sent[i].pts < t.sent[j].pts;
      }
    }
  }

  /** An example: two pictures out of order come out out of order. */
  lemma PassThroughUnordered(cfg: Config)
    requires PassesAll(cfg)
    ensures !Ascending(Run(cfg, START, Calls([Picture(5.0, 1.0), Picture(3.0, 1.0)])))
  {
    var ps := [Picture(5.0, 1.0), Picture(3.0, 1.0)];
    PassThroughAscends(cfg, ps);
    assert Rint(ps[0].ipts) == 5 && Rint(ps[1].ipts) == 3;
  }
}
