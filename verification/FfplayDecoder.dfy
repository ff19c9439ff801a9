/**
 * The packet queue and the decoder thread of fftools/ffplay.c. A section of packet_queue_* under the queue's mutex is
 * one step; the decoder's reads of the queue outside the mutex are steps of their own. The codec is a bag of packets
 * that avcodec_send_packet adds to, a frame is built from some of, and avcodec_flush_buffers empties.
 */
module FfplayDecoder {
  import opened Basics
  import opened FfplayRing

  /** What happened to the packet queue, in order. */
  datatype Event = Put | Flush | Start

  /** Where the decoder thread is in decoder_decode_frame, packet_queue_get and the code that queues the frame. */
  datatype Pc = DStopped | DTop | DReceive | DCodec | DFeed | DGet | DAsleep | DClear | DCheck | DSend
              | DFrame | DQueue | DExit

  /** PacketQueue and Decoder; `eofAt`: how much of the log there was when `finished` was last set. */
  datatype Dec = Dec(list: seq<Packet>, serial: nat, log: seq<Event>, pc: Pc, pkt: Packet, pktSerial: int,
                     oldSerial: int, pending: bool, finished: int, eofAt: nat, codec: set<Packet>, frame: Frame)

  // ---- the packet queue ---------------------------------------------------------------------------------------------

  /** SDL_CondSignal on the packet queue, on which only the decoder waits. */
  function Woken(d: Dec): Dec { if d.pc.DAsleep? then d.(pc := DGet) else d }

  /** packet_queue_put: refused once aborted, otherwise stamped with the serial of the moment. */
  function Puts(abort: bool, d: Dec): Dec {
    if abort then d else Woken(d.(list := d.list + [Packet(|d.log|, d.serial)], log := d.log + [Put]))
  }

  /** packet_queue_flush. */
  function Flushes(d: Dec): Dec { d.(list := [], serial := d.serial + 1, log := d.log + [Flush]) }

  /** decoder_init, packet_queue_start and the creation of the thread. */
  function Opens(d: Dec): Dec {
    d.(serial := d.serial + 1, log := d.log + [Start], pc := DTop, pktSerial := -1, pending := false, finished := 0,
       eofAt := 0, codec := {})
  }

  // ---- the decoder thread -------------------------------------------------------------------------------------------

  /** packet_queue_get with block set, up to the point where it returns or waits. */
  function Gets(abort: bool, d: Dec): Dec {
    if abort then d.(pc := DExit)
    else if d.list == [] then d.(pc := DAsleep)
    else
      var p := d.list[0];
      d.(list := d.list[1..], pkt := p, oldSerial := d.pktSerial, pktSerial := p.serial,
         pc := if d.pktSerial != p.serial then DClear else DCheck)
  }

  /**
   * What avcodec_receive_frame may do: a frame from packets it holds, the end of the stream, no frame yet, another
   * error.
   */
  ghost predicate Receives(d: Dec, e: Dec) {
    || (e.frame.src <= d.codec && e == d.(pc := DFrame, frame := e.frame))
    || e == d.(pc := DTop, finished := d.pktSerial, eofAt := |d.log|, codec := {})
    || e == d.(pc := DFeed)
    || e == d.(pc := DReceive)
  }

  /** One step of the thread outside the frame queue. */
  ghost predicate DecNext(abort: bool, d: Dec, e: Dec) {
    match d.pc
    case DTop => e == d.(pc := if d.serial == d.pktSerial then DReceive else DFeed)
    case DReceive => e == d.(pc := if abort then DExit else DCodec)
    case DCodec => Receives(d, e)
    case DFrame => // dropped early, or stamped for the frame queue
      e == d.(pc := DTop) || e == d.(pc := DQueue, frame := Frame(d.frame.src, d.pktSerial))
    case DFeed => e == if d.pending then d.(pending := false, pc := DCheck) else d.(pc := DGet)
    case DGet => e == Gets(abort, d)
    case DAsleep => e == d.(pc := DGet)
    case DClear => e == d.(pc := DCheck, codec := {}, finished := 0)
    case DCheck => e == d.(pc := if d.serial == d.pktSerial then DSend else DFeed)
    case DSend => // the codec is full, takes the packet, or fails on it
      e == d.(pc := DTop, pending := true) || e == d.(pc := DTop, codec := d.codec + {d.pkt}) || e == d.(pc := DTop)
    case _ => false
  }

  // ---- serials ------------------------------------------------------------------------------------------------------

  /** How often the queue was flushed or started. */
  function Resets(log: seq<Event>): nat {
    if log == [] then 0 else Resets(log[..|log| - 1]) + One(log[|log| - 1] != Put)
  }

  /** A packet that was put where it says, with the serial of that moment. */
  ghost predicate Tagged(log: seq<Event>, p: Packet) {
    p.at < |log| && log[p.at] == Put && p.serial == Resets(log[..p.at])
  }

  ghost predicate AllTagged(log: seq<Event>, ps: set<Packet>, serial: int) {
    forall p :: p in ps ==> Tagged(log, p) && p.serial == serial
  }

  /** A frame built only from packets that were put with the serial stamped on it. */
  ghost predicate Genuine(log: seq<Event>, f: Frame) { AllTagged(log, f.src, f.serial) }

  lemma TaggedGrows(log: seq<Event>, e: Event, p: Packet)
    requires Tagged(log, p)
    ensures Tagged(log + [e], p)
  {
    assert (log + [e])[..p.at] == log[..p.at];
  }

  lemma AllTaggedGrows(log: seq<Event>, e: Event, ps: set<Packet>, serial: int)
    requires AllTagged(log, ps, serial)
    ensures AllTagged(log + [e], ps, serial)
  {
    forall p | p in ps ensures Tagged(log + [e], p) { TaggedGrows(log, e, p); }
  }

  lemma {:induction false} ResetsMonotone(log: seq<Event>, a: nat, b: nat)
    requires a <= b <= |log|
    ensures Resets(log[..a]) <= Resets(log[..b])
    ensures Resets(log[..a]) == Resets(log[..b]) ==> forall k :: a <= k < b ==> log[k] == Put
    decreases b - a
  {
    if a < b {
      ResetsMonotone(log, a, b - 1);
      assert log[..b][..b - 1] == log[..b - 1];
    }
  }

  // ---- the invariant ------------------------------------------------------------------------------------------------

  ghost predicate InHand(d: Dec) { d.pc.DClear? || d.pc.DCheck? || d.pc.DSend? || d.pending }

  /**
   * The serial of every packet in the codec: pkt_serial, but for the moment between a get and the flush it calls for.
   */
  function CodecSerial(d: Dec): int { if d.pc.DClear? then d.oldSerial else d.pktSerial }

  ghost predicate DecInv(d: Dec) {
    && d.serial == Resets(d.log) && d.pktSerial <= d.serial && d.oldSerial <= d.serial
    && (forall k :: 0 <= k < |d.list| ==> Tagged(d.log, d.list[k]) && d.list[k].serial == d.serial)
    && (InHand(d) ==> Tagged(d.log, d.pkt) && d.pkt.serial == d.pktSerial)
    && (d.pc.DGet? || d.pc.DAsleep? || d.pc.DClear? || d.pc.DCheck? || d.pc.DSend? ==> !d.pending)
    && AllTagged(d.log, d.codec, CodecSerial(d))
    && (d.pc.DFrame? || d.pc.DQueue? ==> AllTagged(d.log, d.frame.src, d.pktSerial))
    && (d.pc.DQueue? ==> d.frame.serial == d.pktSerial)
    && (d.pc.DAsleep? || d.pc.DStopped? ==> d.list == [])
    && (d.finished > 0 ==> d.eofAt <= |d.log| && d.finished <= Resets(d.log[..d.eofAt]))
  }

  /** Before the first decoder_init: packet_queue_init has zeroed the queue. */
  ghost predicate DecInit(d: Dec) {
    && d.list == [] && d.serial == 0 && d.log == [] && d.pc == DStopped && d.codec == {} && d.finished == 0
    && d.pktSerial == -1 && d.oldSerial == -1 && !d.pending
  }

  lemma ChecksInv(abort: bool, d: Dec, e: Dec)
    requires DecInv(d) && DecNext(abort, d, e)
    requires d.pc.DTop? || d.pc.DReceive? || d.pc.DFeed? || d.pc.DCheck? || d.pc.DFrame?
    ensures DecInv(e)
  {
    hide Tagged;
  }

  lemma CodecInv(abort: bool, d: Dec, e: Dec)
    requires DecInv(d) && DecNext(abort, d, e) && (d.pc.DCodec? || d.pc.DClear? || d.pc.DSend?)
    ensures DecInv(e)
  {
    hide Tagged, Resets;
    assert d.log[..|d.log|] == d.log;
  }

  lemma GetsInv(abort: bool, d: Dec, e: Dec)
    requires DecInv(d) && DecNext(abort, d, e) && (d.pc.DGet? || d.pc.DAsleep?)
    ensures DecInv(e)
  {
    hide Tagged;
    if d.list != [] { assert Tagged(d.log, d.list[0]) && d.list[0].serial == d.serial; }
  }

  lemma DecNextInv(abort: bool, d: Dec, e: Dec)
    requires DecInv(d) && DecNext(abort, d, e)
    ensures DecInv(e)
  {
    hide DecInv;
    if d.pc.DCodec? || d.pc.DClear? || d.pc.DSend? { CodecInv(abort, d, e); }
    else if d.pc.DGet? || d.pc.DAsleep? { GetsInv(abort, d, e); }
    else { ChecksInv(abort, d, e); }
  }

  /**
   * What goes through the codec: exactly the packets that carry the queue's serial are offered to it, and it is asked
   * for frames exactly while it holds that serial; an offered packet is held, kept for later or failed on.
   */
  lemma OffersExactly(abort: bool, d: Dec, e: Dec)
    requires DecInv(d) && DecNext(abort, d, e)
    ensures d.pc.DCheck? ==> (e.pc.DSend? <==> d.pkt.serial == d.serial) && (e.pc.DSend? || e.pc.DFeed?)
    ensures d.pc.DTop? ==> (e.pc.DReceive? <==> CodecSerial(d) == d.serial) && (e.pc.DReceive? || e.pc.DFeed?)
    ensures d.pc.DSend? ==>
              e.codec <= d.codec + {d.pkt} && d.codec <= e.codec && !(e.pending && d.pkt in e.codec - d.codec)
    ensures d.pc.DFeed? && d.pending ==> e.pc.DCheck? && e.pkt == d.pkt
  {
    hide Tagged, Resets;
  }

  lemma DecStages(abort: bool, d: Dec, e: Dec)
    requires DecNext(abort, d, e)
    ensures e.log == d.log && e.serial == d.serial && !d.pc.DQueue? && !e.pc.DStopped? && (e.pc.DAsleep? ==> !abort)
  {
  }

  lemma PutTagged(d: Dec)
    requires DecInv(d)
    ensures var log, list := d.log + [Put], d.list + [Packet(|d.log|, d.serial)];
            forall k :: 0 <= k < |list| ==> Tagged(log, list[k]) && list[k].serial == d.serial
  {
    LogGrows(d, Put);
    var p, log := Packet(|d.log|, d.serial), d.log + [Put];
    assert log[..|d.log|] == d.log;
    assert Tagged(log, p);
    hide Tagged, Resets, AllTagged;
    var list := d.list + [p];
    forall k | 0 <= k < |list| ensures Tagged(log, list[k]) && list[k].serial == d.serial {
      if k < |d.list| { assert list[k] == d.list[k]; } else { assert list[k] == p; }
    }
  }

  lemma PutsInv(abort: bool, d: Dec)
    requires DecInv(d) && (d.pc.DStopped? ==> abort)
    ensures DecInv(Puts(abort, d))
  {
    if !abort {
      LogGrows(d, Put);
      PutTagged(d);
      var log := d.log + [Put];
      assert log[..|d.log|] == d.log;
      assert Resets(log) == Resets(d.log);
      hide Tagged, Resets, AllTagged;
      var e := d.(list := d.list + [Packet(|d.log|, d.serial)], log := log);
      if d.pc.DAsleep? { assert Puts(abort, d) == e.(pc := DGet); } else { assert Puts(abort, d) == e; }
    }
  }

  lemma FlushesInv(d: Dec)
    requires DecInv(d)
    ensures DecInv(Flushes(d))
  {
    LogGrows(d, Flush);
    var log := d.log + [Flush];
    assert log[..|d.log|] == d.log;
    assert Resets(log) == Resets(d.log) + 1;
    hide Tagged, Resets, AllTagged;
    assert DecInv(Flushes(d));
  }

  lemma OpensInv(d: Dec)
    requires DecInv(d) && d.pc.DStopped?
    ensures DecInv(Opens(d))
  {
    LogGrows(d, Start);
    var log := d.log + [Start];
    assert log[..|d.log|] == d.log;
    assert Resets(log) == Resets(d.log) + 1;
    assert AllTagged(log, {}, -1);
    hide Tagged, Resets, AllTagged;
    assert DecInv(Opens(d));
  }

  /** What the invariant says of the packets held stays true when the log grows. */
  lemma LogGrows(d: Dec, v: Event)
    requires DecInv(d)
    ensures var log := d.log + [v];
            && (forall k :: 0 <= k < |d.list| ==> Tagged(log, d.list[k]))
            && (InHand(d) ==> Tagged(log, d.pkt)) && AllTagged(log, d.codec, CodecSerial(d))
            && (d.pc.DFrame? || d.pc.DQueue? ==> AllTagged(log, d.frame.src, d.pktSerial))
            && (d.finished > 0 ==> log[..d.eofAt] == d.log[..d.eofAt])
  {
    forall k | 0 <= k < |d.list| ensures Tagged(d.log + [v], d.list[k]) { TaggedGrows(d.log, v, d.list[k]); }
    if InHand(d) { TaggedGrows(d.log, v, d.pkt); }
    AllTaggedGrows(d.log, v, d.codec, CodecSerial(d));
    if d.pc.DFrame? || d.pc.DQueue? { AllTaggedGrows(d.log, v, d.frame.src, d.pktSerial); }
  }
}
