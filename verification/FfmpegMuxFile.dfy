/** The output file and its streams of fftools/ffmpeg.c in place, proved against the functions of FfmpegMux. */
module FfmpegMuxFile {
  import opened Basics
  import opened FfmpegMux

  class OutputStream {
    const cfg: Config
    var initialized: bool
    var frameNumber: nat
    var muxingQueue: seq<Packet>
    var room: nat
    var muxingQueueDataSize: int
    var lastMuxDts: Option<int>
    /** The packets handed to the muxer so far. */
    var muxed: seq<Packet>

    constructor (cfg: Config)
      ensures this.cfg == cfg && View() == Start(cfg)
    {
      this.cfg := cfg;
      initialized, frameNumber, muxingQueue, room := false, 0, [], cfg.initial;
      muxingQueueDataSize, lastMuxDts, muxed := 0, None, [];
    }

    ghost function View(): Stream
      reads this
    {
      Stream(initialized, frameNumber, muxingQueue, room, muxingQueueDataSize, lastMuxDts, muxed)
    }

    /** The timestamp repair of write_packet. */
    method RepairTimes(p: Packet) returns (q: Packet)
      ensures q == Repair(cfg, lastMuxDts, p)
    {
      q := p;
      if (cfg.kind == VIDEO && cfg.vsyncDrop) || (cfg.kind == AUDIO && cfg.audioSync < 0) {
        q := q.(pts := None, dts := None);
      }
      if !cfg.noTimestamps {
        if q.dts.Some? && q.pts.Some? && q.dts.value > q.pts.value {
          var t := q.pts.value;
          if lastMuxDts.Some? {
            var next := lastMuxDts.value + 1;
            t := q.pts.value + q.dts.value + next
                 - Min(Min(q.pts.value, q.dts.value), next) - Max(Max(q.pts.value, q.dts.value), next);
          }
          q := q.(pts := Some(t), dts := Some(t));
        }
        if cfg.kind != OTHER && q.dts.Some? && !(cfg.vp9 && cfg.copy) && lastMuxDts.Some? {
          var least := lastMuxDts.value + One(!cfg.nonstrict);
          if q.dts.value < least {
            if q.pts.Some? && q.pts.value >= q.dts.value { q := q.(pts := Some(Max(q.pts.value, least))); }
            q := q.(dts := Some(least));
          }
        }
      }
    }

    /** write_packet; false where the source exits because too many packets are buffered. */
    method WritePacket(p: Packet, headerWritten: bool, unqueue: bool) returns (ok: bool)
      requires unqueue ==> headerWritten
      modifies this
      ensures unqueue ==> ok && View() == Mux(cfg, old(View()), p)
      ensures !unqueue ==> (ok <==> Write(cfg, old(View()), p, headerWritten).Some?)
      ensures !unqueue && ok ==> View() == Write(cfg, old(View()), p, headerWritten).value
    {
      hide Repair;
      if !(cfg.kind == VIDEO && cfg.encoding) && !unqueue {
        if frameNumber >= cfg.maxFrames { return true; }
        frameNumber := frameNumber + 1;
      }
      if !headerWritten {
        var size := |muxingQueue|;
        if size >= room {
          var over := muxingQueueDataSize + p.size > cfg.threshold;
          var newSize := if over then Min(2 * size, cfg.maxQueue) else 2 * size;
          if newSize <= size { return false; }
          room := newSize;
        }
        muxingQueueDataSize := muxingQueueDataSize + p.size;
        muxingQueue := muxingQueue + [p];
        return true;
      }
      var q := RepairTimes(p);
      lastMuxDts := q.dts;
      muxed := muxed + [q];
      ok := true;
    }

    /** The flush of the muxing queue in check_init_output_file. */
    method FlushQueue()
      modifies this
      ensures View() == Flush(cfg, old(View()))
    {
      hide Mux;
      while muxingQueue != []
        invariant Flush(cfg, View()) == Flush(cfg, old(View()))
        decreases |muxingQueue|
      {
        ghost var st := View();
        var p := muxingQueue[0];
        muxingQueue := muxingQueue[1..];
        muxingQueueDataSize := muxingQueueDataSize - p.size;
        MuxKeepsQueue(cfg, View(), p);
        var ok := WritePacket(p, true, true);
      }
    }
  }

  lemma MuxKeepsQueue(c: Config, st: Stream, p: Packet)
    ensures Mux(c, st, p).queue == st.queue
  {
  }

  class OutputFile {
    const streams: seq<OutputStream>
    var headerWritten: bool

    constructor (streams: seq<OutputStream>)
      ensures this.streams == streams && !headerWritten
    {
      this.streams := streams;
      headerWritten := false;
    }

    ghost predicate Valid() { forall i, j :: 0 <= i < j < |streams| ==> streams[i] != streams[j] }

    ghost function Configs(): (cs: seq<Config>)
      ensures |cs| == |streams|
    {
      seq(|streams|, k requires 0 <= k < |streams| => streams[k].cfg)
    }

    ghost function Views(): (v: seq<Stream>)
      reads streams
      ensures |v| == |streams|
    {
      seq(|streams|, k requires 0 <= k < |streams| reads streams => streams[k].View())
    }

    ghost function View(): (f: File)
      reads this, streams
      ensures |f.streams| == |streams|
    {
      File(headerWritten, Views())
    }

    /** A packet for stream `i`; false where the source exits. */
    method Submit(i: nat, p: Packet) returns (ok: bool)
      requires Valid() && i < |streams|
      modifies streams[i]
      ensures ok <==> Step(Configs(), old(View()), FfmpegMux.Submit(i, p)).Some?
      ensures ok ==> View() == Step(Configs(), old(View()), FfmpegMux.Submit(i, p)).value
    {
      hide Write;
      ok := streams[i].WritePacket(p, headerWritten, false);
      ghost var w := Write(Configs()[i], old(View()).streams[i], p, headerWritten);
      if ok {
        assert Views() == old(Views())[i := w.value];
      }
    }

    /** init_output_stream_wrapper and check_init_output_file. */
    method InitStream(i: nat)
      requires Valid() && i < |streams|
      modifies this`headerWritten, streams
      ensures View() == Step(Configs(), old(View()), Init(i)).value
    {
      hide Flush;
      if streams[i].initialized { return; }
      streams[i].initialized := true;
      ghost var s := Views();
      assert s == old(Views())[i := old(Views())[i].(ready := true)];
      var n := 0;
      while n < |streams|
        invariant n <= |streams|
        invariant forall k :: 0 <= k < n ==> s[k].ready
      {
        if !streams[n].initialized {
          assert !s[n].ready;
          return;
        }
        n := n + 1;
      }
      headerWritten := true;
      n := 0;
      while n < |streams|
        invariant n <= |streams| && headerWritten
        invariant forall k :: 0 <= k < n ==> streams[k].View() == Flush(streams[k].cfg, s[k])
        invariant forall k :: n <= k < |streams| ==> streams[k].View() == s[k]
      {
        streams[n].FlushQueue();
        n := n + 1;
      }
      assert Views() == FlushAll(Configs(), s);
    }
  }
}
