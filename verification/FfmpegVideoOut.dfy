/**
 * do_video_out of fftools/ffmpeg.c in place on the fields of its output stream, proved against FfmpegRate.Step.
 */
module FfmpegVideoOut {
  import opened Basics
  import opened FfmpegRate

  class OutputStream {
    const cfg: Config
    var syncOpts: int
    var frameNumber: nat
    const lastNb0Frames: array<int>
    var lastDropped: bool
    var lastFrame: Option<nat>
    var nbFramesDup: int
    var nbFramesDrop: int
    var received: nat
    /** The frames handed to the encoder so far. */
    var sent: seq<Frame>

    constructor (cfg: Config)
      ensures this.cfg == cfg && fresh(lastNb0Frames) && Valid() && View() == START
    {
      this.cfg := cfg;
      syncOpts, frameNumber, lastDropped, lastFrame := 0, 0, false, None;
      nbFramesDup, nbFramesDrop, received, sent := 0, 0, 0, [];
      lastNb0Frames := new int[3](_ => 0);
    }

    ghost predicate Valid() { lastNb0Frames.Length == 3 }

    ghost function View(): Stream
      requires Valid()
      reads this, lastNb0Frames
    {
      Stream(syncOpts, frameNumber, (lastNb0Frames[0], lastNb0Frames[1], lastNb0Frames[2]), lastDropped, lastFrame,
             nbFramesDup, nbFramesDrop, received, sent)
    }

    /** The rate control: how many frames to output and how many of them repeat the previous picture. */
    method RateControl(p: Picture) returns (nb: int, nb0: int)
      requires Valid()
      modifies this`syncOpts
      ensures Rate(nb, nb0, syncOpts) == Decide(cfg, old(View()), p)
    {
      var ipts, duration := p.ipts, p.duration;
      var delta0 := ipts - syncOpts as real;
      var delta := delta0 + duration;
      nb0, nb := 0, 1;
      if delta0 < 0.0 && delta > 0.0 && cfg.mode != PASSTHROUGH && cfg.mode != DROP {
        ipts := syncOpts as real;
        duration := duration + delta0;
        delta0 := 0.0;
      }
      if cfg.mode == VSCFR && frameNumber == 0 && delta0 >= 0.5 {
        delta, delta0 := duration, 0.0;
        syncOpts := Rint(ipts);
      }
      if cfg.mode == VSCFR || cfg.mode == CFR {
        if cfg.dropThreshold != 0.0 && delta < cfg.dropThreshold && frameNumber != 0 {
          nb := 0;
        } else if delta < -1.1 {
          nb := 0;
        } else if delta > 1.1 {
          nb := Rint(delta);
          if delta0 > 1.1 { nb0 := Rint(delta0 - 0.6); }
        }
      } else if cfg.mode == VFR {
        if delta <= -0.6 { nb := 0; }
        else if delta > 0.6 { syncOpts := Rint(ipts); }
      } else {
        syncOpts := Rint(ipts);
      }
    }

    /** The counters: drops, duplicates and the pending drop. False when there are too many duplicates. */
    method Count(nb: int, nb0: int, next: Option<Picture>, ghost st: Stream) returns (ok: bool)
      requires Valid() && View() == st.(syncOpts := syncOpts) && Rate(nb, nb0, syncOpts) == Limited(cfg, st, next)
      modifies this`nbFramesDup, this`nbFramesDrop, this`lastDropped, lastNb0Frames
      ensures ok <==> !Excess(cfg, st, Limited(cfg, st, next))
      ensures ok ==> View() == Counted(cfg, st, next, Limited(cfg, st, next))
      ensures !ok ==> View().(received := received + One(next.Some?)) == Step(cfg, st, next)
    {
      lastNb0Frames[2] := lastNb0Frames[1];
      lastNb0Frames[1] := lastNb0Frames[0];
      lastNb0Frames[0] := nb0;
      if nb0 == 0 && lastDropped { nbFramesDrop := nbFramesDrop + 1; }
      var firsts := One(nb0 != 0 && lastDropped) + One(nb > nb0);
      if nb > firsts {
        if nb as real > cfg.dupLimit {
          nbFramesDrop := nbFramesDrop + 1;
          return false;
        }
        nbFramesDup := nbFramesDup + nb - firsts;
      }
      lastDropped := nb == nb0 && next.Some?;
      ok := true;
    }

    /** The encoding loop; false when it returned early. */
    method Encode(nb: int, nb0: int, id: Option<nat>) returns (done: bool)
      requires Valid()
      modifies this`syncOpts, this`frameNumber, this`sent
      ensures (View(), done) == Send(cfg, old(View()), 0, Rate(nb, nb0, old(syncOpts)), id)
    {
      ghost var r := Rate(nb, nb0, syncOpts);
      var i := 0;
      while i < nb
        invariant 0 <= i && Valid()
        invariant Send(cfg, View(), i, r, id) == Send(cfg, old(View()), 0, r, id)
        decreases nb - i
      {
        var pic := if i < nb0 && lastFrame.Some? then lastFrame else id;
        if pic.None? || (cfg.limit.Some? && syncOpts >= cfg.limit.value) { return false; }
        sent := sent + [Frame(syncOpts, pic.value)];
        syncOpts := syncOpts + 1;
        frameNumber := frameNumber + 1;
        i := i + 1;
      }
      done := true;
    }

    /** do_video_out: a picture, or None at the end of the stream. */
    method DoVideoOut(next: Option<Picture>)
      requires Valid()
      modifies this, lastNb0Frames
      ensures View() == Step(cfg, old(View()), next)
    {
      hide Decide, Excess, Send, Rint;
      ghost var st := View();
      var id := if next.None? then None else Some(received);
      var nb, nb0;
      if next.None? {
        nb := MidPred(lastNb0Frames[0], lastNb0Frames[1], lastNb0Frames[2]);
        nb0 := nb;
      } else {
        nb, nb0 := RateControl(next.value);
      }
      if cfg.maxFrames.Some? { nb := Min(nb, cfg.maxFrames.value - frameNumber); }
      nb0 := Min(nb0, nb);
      var ok := Count(nb, nb0, next, st);
      if ok {
        var done := Encode(nb, nb0, id);
        if done { lastFrame := id; }
      }
      received := received + One(next.Some?);
    }
  }
}
