/**
 * One stream of fftools/ffplay.c end to end: the reading thread puts and flushes packets, the decoder thread turns them
 * into frames for the frame queue, the display or audio thread dequeues them, and decoder_abort and decoder_start stop
 * and restart the whole.
 */
module FfplaySystem {
  import opened Basics
  import opened FfplayRing
  import opened FfplayDecoder

  datatype Sys = Sys(ring: Ring, dec: Dec)

  /** decoder_decode_frame and what its caller does outside the frame queue. */
  ghost predicate Decodes(s: Sys, t: Sys) { t.ring == s.ring && DecNext(s.ring.abort, s.dec, t.dec) }

  /** What the end of a queue_picture means to the decoder: refused because of the abort, or pushed. */
  function Queued(w: WriterPc, d: Dec): Dec {
    if w.WCheckAbort? then d.(pc := DExit) else if w.WPushUnlock? then d.(pc := DTop) else d
  }

  /** The decoder thread inside the frame queue, with its frame. */
  ghost predicate Queues(s: Sys, t: Sys) {
    && s.dec.pc.DQueue? && WriterNext(s.ring, t.ring)
    && (s.ring.w.WFilling? ==> t.ring.w.WInc? && t.ring.hand == s.dec.frame)
    && t.dec == if t.ring.w.WIdle? then Queued(s.ring.w, s.dec) else s.dec
  }

  ghost predicate DecoderThread(s: Sys, t: Sys) { Decodes(s, t) || Queues(s, t) }

  ghost predicate ReaderThread(s: Sys, t: Sys) { t.dec == s.dec && ReaderNext(s.ring, t.ring) }

  /** read_thread. */
  ghost predicate Feeds(s: Sys, t: Sys) {
    t.ring == s.ring && (t.dec == Puts(s.ring.abort, s.dec) || t.dec == Flushes(s.dec))
  }

  /**
   * decoder_abort: packet_queue_abort, frame_queue_signal, SDL_WaitThread with packet_queue_flush; and later the
   * opening of a decoder with decoder_start.
   */
  ghost predicate Controls(s: Sys, t: Sys) {
    || (s.ring.a.ARun? && Abort(s.ring, t.ring) && t.dec == Woken(s.dec))
    || ((s.ring.a.ALock? || s.ring.a.ASignal? || s.ring.a.AUnlock?) && Abort(s.ring, t.ring) && t.dec == s.dec)
    || (s.ring.a.ADone? && s.dec.pc.DExit? && t.ring == s.ring && t.dec == Flushes(s.dec).(pc := DStopped))
    || (s.ring.a.ADone? && s.dec.pc.DStopped? && Abort(s.ring, t.ring) && t.dec == Opens(s.dec))
  }

  ghost predicate SysNext(s: Sys, t: Sys) { DecoderThread(s, t) || ReaderThread(s, t) || Feeds(s, t) || Controls(s, t) }

  ghost predicate SysInit(s: Sys) { RingInit(s.ring) && DecInit(s.dec) }

  ghost predicate Run(p: seq<Sys>) {
    p != [] && SysInit(p[0]) && forall k :: 0 < k < |p| ==> SysNext(p[k - 1], p[k])
  }

  // ---- the invariant ------------------------------------------------------------------------------------------------

  /** How the two machines fit: the writer is the decoder queueing its frame, and an aborted decoder does not sleep. */
  ghost predicate Fits(s: Sys) {
    && (!s.ring.w.WIdle? ==> s.dec.pc.DQueue?)
    && (Filled(s.ring.w) ==> s.ring.hand == s.dec.frame)
    && (s.dec.pc.DStopped? ==> s.ring.a.ADone?)
    && (s.dec.pc.DAsleep? ==> s.ring.a.ARun?)
  }

  ghost predicate PushedGenuine(s: Sys) {
    forall i :: 0 <= i < |s.ring.pushed| ==> Genuine(s.dec.log, s.ring.pushed[i])
  }

  ghost predicate SysInv(s: Sys) { RingInv(s.ring) && DecInv(s.dec) && Fits(s) && PushedGenuine(s) }

  lemma DecodesInv(s: Sys, t: Sys)
    requires SysInv(s) && Decodes(s, t)
    ensures SysInv(t)
  {
    hide Indices, Contents, Counts, Waits, DecInv, DecNext, Tagged, AllTagged;
    DecNextInv(s.ring.abort, s.dec, t.dec);
    DecStages(s.ring.abort, s.dec, t.dec);
  }

  lemma QueuesInv(s: Sys, t: Sys)
    requires SysInv(s) && Queues(s, t)
    ensures SysInv(t)
  {
    hide RingInv, WriterNext, Tagged;
    RingInvKept(s.ring, t.ring);
    PushesOne(s.ring, t.ring);
    WriterStages(s.ring, t.ring);
  }

  /** How the writer moves. */
  lemma WriterStages(s: Ring, t: Ring)
    requires WriterNext(s, t)
    ensures Filled(t.w) && !s.w.WFilling? ==> Filled(s.w) && t.hand == s.hand
    ensures t.w.WIdle? ==> s.w.WCheckAbort? || s.w.WFilling? || s.w.WPushUnlock?
    ensures s.w.WPushUnlock? ==> t.w.WIdle?
    ensures t.a == s.a && t.abort == s.abort
  {
  }

  lemma ReaderInv(s: Sys, t: Sys)
    requires SysInv(s) && ReaderThread(s, t)
    ensures SysInv(t)
  {
    hide Indices, Contents, Locks, Counts, Waits, ReaderNext, DecInv, Tagged, AllTagged;
    RingInvKept(s.ring, t.ring);
    DequeuesOne(s.ring, t.ring);
    ReaderStages(s.ring, t.ring);
  }

  lemma ReaderStages(s: Ring, t: Ring)
    requires ReaderNext(s, t)
    ensures t.w == s.w || (s.w.WAsleep? && t.w.WLock?)
    ensures t.hand == s.hand && t.a == s.a && t.pushed == s.pushed && t.abort == s.abort
  {
  }

  lemma GenuineGrows(s: Sys, log: seq<Event>)
    requires PushedGenuine(s) && (log == s.dec.log || exists e :: log == s.dec.log + [e])
    ensures forall i :: 0 <= i < |s.ring.pushed| ==> Genuine(log, s.ring.pushed[i])
  {
    if log != s.dec.log {
      var e :| log == s.dec.log + [e];
      forall i | 0 <= i < |s.ring.pushed| ensures Genuine(log, s.ring.pushed[i]) {
        AllTaggedGrows(s.dec.log, e, s.ring.pushed[i].src, s.ring.pushed[i].serial);
      }
    }
  }

  lemma FeedsInv(s: Sys, t: Sys)
    requires SysInv(s) && Feeds(s, t)
    ensures SysInv(t)
  {
    hide Indices, Contents, Counts, Waits, DecInv, Tagged, AllTagged;
    assert s.dec.pc.DStopped? ==> s.ring.abort;
    PutsInv(s.ring.abort, s.dec);
    FlushesInv(s.dec);
    GenuineGrows(s, t.dec.log);
  }

  lemma StopsInv(s: Sys, t: Sys)
    requires SysInv(s) && Controls(s, t) && !s.ring.a.ADone?
    ensures SysInv(t)
  {
    hide RingInv, Abort, Tagged, AllTagged;
    RingInvKept(s.ring, t.ring);
    AbortStages(s.ring, t.ring);
  }

  lemma JoinsInv(s: Sys, t: Sys)
    requires SysInv(s) && Controls(s, t) && s.ring.a.ADone?
    ensures SysInv(t)
  {
    hide RingInv, Abort, Tagged, AllTagged, Resets;
    GenuineGrows(s, t.dec.log);
    if s.dec.pc.DStopped? {
      RingInvKept(s.ring, t.ring);
      AbortStages(s.ring, t.ring);
      OpensInv(s.dec);
    } else {
      FlushesInv(s.dec);
    }
    hide DecInv;
  }

  lemma AbortStages(s: Ring, t: Ring)
    ensures Abort(s, t) ==> (t.w == s.w || (s.w.WAsleep? && t.w.WLock?)) && t.hand == s.hand && t.pushed == s.pushed
    ensures Abort(s, t) ==> (t.a.ARun? <==> s.a.ADone?) && (s.a.ADone? ==> s.w.WIdle?)
    ensures Abort(s, t) && s.a.AUnlock? ==> t.a.ADone?
  {
  }

  lemma SysInvKept(s: Sys, t: Sys)
    requires SysInv(s) && SysNext(s, t)
    ensures SysInv(t)
  {
    hide SysInv, Decodes, Queues, ReaderThread, Feeds, Controls;
    if Decodes(s, t) { DecodesInv(s, t); }
    else if Queues(s, t) { QueuesInv(s, t); }
    else if ReaderThread(s, t) { ReaderInv(s, t); }
    else if Feeds(s, t) { FeedsInv(s, t); }
    else if s.ring.a.ADone? { JoinsInv(s, t); }
    else { StopsInv(s, t); }
  }

  lemma {:induction false} RunInv(p: seq<Sys>, k: nat)
    requires Run(p) && k < |p|
    ensures SysInv(p[k])
  {
    if k == 0 {
      InitInv(p[0].ring);
    } else {
      RunInv(p, k - 1);
      SysInvKept(p[k - 1], p[k]);
    }
  }

  // ---- what every run keeps -----------------------------------------------------------------------------------------

  /**
   * The codec only ever holds packets of one serial: pkt_serial, but for the moment between a get and the flush it
   * calls for.
   */
  lemma CodecHoldsOneSerial(p: seq<Sys>, n: nat)
    requires Run(p) && n < |p|
    ensures forall q :: q in p[n].dec.codec ==> q.serial == CodecSerial(p[n].dec) && Tagged(p[n].dec.log, q)
    ensures forall k :: 0 <= k < |p[n].dec.list| ==> p[n].dec.list[k].serial == p[n].dec.serial
  {
    hide RingInv, Fits, Tagged;
    RunInv(p, n);
  }

  /**
   * The frame in a slot the reader may look at: the display compares the serial of the one it peeked at, the audio
   * callback that of the one it has just dequeued, which stays in its slot.
   */
  ghost predicate LooksAtFrame(s: Sys, k: nat, f: Frame) {
    0 < s.ring.f.max && Looks(s.ring, k) && k < |s.ring.f.slots| && s.ring.f.slots[k] == Full(f)
  }

  /** Neither flushed nor started since the packet was put. */
  ghost predicate PutSinceReset(log: seq<Event>, q: Packet) {
    q.at < |log| && log[q.at] == Put && forall k :: q.at <= k < |log| ==> log[k] == Put
  }

  lemma CurrentIsFresh(log: seq<Event>, q: Packet)
    requires Tagged(log, q) && q.serial == Resets(log)
    ensures PutSinceReset(log, q)
  {
    assert log[..|log|] == log;
    ResetsMonotone(log, q.at, |log|);
  }

  /**
   * End to end: a frame looked at whose serial passes the comparison with the queue's serial was built only from
   * packets put after the latest flush or start of that queue, whatever was flushed, stopped and restarted before.
   */
  lemma ShownFramesAreFresh(p: seq<Sys>, n: nat, k: nat, f: Frame)
    requires Run(p) && n < |p| && LooksAtFrame(p[n], k, f) && f.serial == p[n].dec.serial
    ensures forall q :: q in f.src ==> PutSinceReset(p[n].dec.log, q)
  {
    RunInv(p, n);
    var s := p[n];
    var i := LooksAt(s.ring, k);
    assert Genuine(s.dec.log, s.ring.pushed[i]);
    hide RingInv, Fits, Resets;
    forall q | q in f.src ensures PutSinceReset(s.dec.log, q) { CurrentIsFresh(s.dec.log, q); }
  }

  /**
   * `finished` equal to the queue's serial means the codec reported the end of the stream after the latest flush or
   * start.
   */
  lemma FinishedIsCurrent(p: seq<Sys>, n: nat)
    requires Run(p) && n < |p| && p[n].dec.finished == p[n].dec.serial > 0
    ensures p[n].dec.eofAt <= |p[n].dec.log|
    ensures forall k :: p[n].dec.eofAt <= k < |p[n].dec.log| ==> p[n].dec.log[k] == Put
  {
    RunInv(p, n);
    hide RingInv, Fits, Tagged;
    var d := p[n].dec;
    assert d.log[..|d.log|] == d.log;
    ResetsMonotone(d.log, d.eofAt, |d.log|);
  }

  /** At step `a` the codec reports the end of the stream, while it holds packets of the queue's serial. */
  ghost predicate EndReported(p: seq<Sys>, a: nat) {
    a + 1 < |p| && p[a].dec.pc.DCodec? && p[a + 1].dec.pc.DTop? && p[a].dec.pktSerial == p[a].dec.serial
  }

  /** The end of the stream is noted, and nothing newer was taken from the queue. */
  ghost predicate EndNoted(d: Dec) { d.finished == d.pktSerial == d.serial && !d.pc.DClear? && !d.pc.DStopped? }

  lemma SerialStep(s: Sys, t: Sys)
    requires SysNext(s, t)
    ensures s.dec.serial <= t.dec.serial
  {
  }

  lemma EndStep(s: Sys, t: Sys)
    requires SysInv(s) && SysNext(s, t) && t.dec.serial == s.dec.serial
    ensures EndNoted(s.dec) ==> EndNoted(t.dec)
    ensures s.dec.pc.DCodec? && t.dec.pc.DTop? && s.dec.pktSerial == s.dec.serial ==> EndNoted(t.dec)
  {
    hide RingInv, PushedGenuine, Tagged, Resets, AllTagged, WriterNext, ReaderNext, Abort;
  }

  lemma {:induction false} SerialsGrow(p: seq<Sys>, a: nat, b: nat)
    requires Run(p) && a <= b < |p|
    ensures p[a].dec.serial <= p[b].dec.serial
    decreases b - a
  {
    hide SysNext, SysInit;
    if a < b {
      SerialsGrow(p, a, b - 1);
      SerialStep(p[b - 1], p[b]);
    }
  }

  /** A reported end stays noted for as long as the queue is neither flushed nor started. */
  lemma {:induction false} EndStaysNoted(p: seq<Sys>, a: nat, b: nat)
    requires Run(p) && EndReported(p, a) && a < b < |p| && p[b].dec.serial == p[a].dec.serial
    ensures EndNoted(p[b].dec)
    decreases b - a
  {
    hide SysNext, SysInit, SysInv;
    SerialsGrow(p, a, b - 1);
    SerialsGrow(p, b - 1, b);
    RunInv(p, b - 1);
    if a < b - 1 { EndStaysNoted(p, a, b - 1); }
    EndStep(p[b - 1], p[b]);
  }

  lemma NotAhead(d: Dec)
    requires DecInv(d)
    ensures d.finished <= d.serial && d.pktSerial <= d.serial
  {
    hide Tagged, AllTagged;
    if d.finished > 0 {
      assert d.log[..|d.log|] == d.log;
      ResetsMonotone(d.log, d.eofAt, |d.log|);
    }
  }

  lemma FinishedStep(s: Sys, t: Sys)
    requires SysInv(s) && SysNext(s, t) && t.dec.finished == t.dec.serial > 0
    ensures t.dec.serial == s.dec.serial
    ensures (s.dec.pc.DCodec? && t.dec.pc.DTop? && s.dec.pktSerial == s.dec.serial) || s.dec.finished == s.dec.serial
  {
    NotAhead(s.dec);
    SerialStep(s, t);
    hide SysInv, Fits, WriterNext, ReaderNext, Abort, AllTagged;
  }

  /** The step that made `finished` what it is. */
  lemma {:induction false} FinishedHasEnd(p: seq<Sys>, n: nat) returns (a: nat)
    requires Run(p) && n < |p| && p[n].dec.finished == p[n].dec.serial > 0
    ensures a < n && EndReported(p, a) && p[a].dec.serial == p[n].dec.serial
  {
    hide SysNext, SysInv, SysInit;
    if n == 0 {
      InitUnfinished(p[0]);
    } else {
      RunInv(p, n - 1);
      FinishedStep(p[n - 1], p[n]);
      a := n - 1;
      if p[n - 1].dec.finished == p[n - 1].dec.serial { a := FinishedHasEnd(p, n - 1); }
    }
  }

  lemma InitUnfinished(s: Sys)
    requires SysInit(s)
    ensures s.dec.serial == 0
  {
  }

  /**
   * What the end-of-file checks read: `finished` equals the queue's serial if and only if the codec reported the end of
   * the stream with that serial, and the queue was neither flushed nor started since.
   */
  lemma FinishedIff(p: seq<Sys>, n: nat)
    requires Run(p) && n < |p| && p[n].dec.serial > 0
    ensures p[n].dec.finished == p[n].dec.serial
       <==> exists a: nat :: a < n && EndReported(p, a) && p[a].dec.serial == p[n].dec.serial
  {
    hide Run, EndReported;
    if p[n].dec.finished == p[n].dec.serial {
      var a := FinishedHasEnd(p, n);
    }
    if a: nat :| a < n && EndReported(p, a) && p[a].dec.serial == p[n].dec.serial {
      EndStaysNoted(p, a, n);
    }
  }

  // ---- decoder_abort ------------------------------------------------------------------------------------------------

  /** packet_queue_abort and frame_queue_signal have done their work, and no new decoder is open. */
  predicate Signalled(s: Sys) { s.ring.a.AUnlock? || s.ring.a.ADone? }

  /** No wakeup is lost: past the two signals the decoder sleeps neither on packets nor on room for a frame. */
  lemma NoLostWakeup(p: seq<Sys>, n: nat)
    requires Run(p) && n < |p| && Signalled(p[n])
    ensures !p[n].dec.pc.DAsleep? && !p[n].ring.w.WAsleep? && !p[n].ring.w.WSleep?
  {
    hide Indices, Contents, Counts, DecInv, PushedGenuine;
    RunInv(p, n);
  }

  /** A decoder asleep on packets has none to take: a put always wakes it. */
  lemma SleepsOnlyWhenEmpty(p: seq<Sys>, n: nat)
    requires Run(p) && n < |p| && p[n].dec.pc.DAsleep?
    ensures p[n].dec.list == [] && !p[n].ring.abort
  {
    hide Indices, Contents, Counts, PushedGenuine;
    RunInv(p, n);
  }

  /** How far the writer is from the end of queueing. */
  function WriterRank(w: WriterPc): nat {
    match w
    case WIdle => 20
    case WAsleep => 20
    case WSleep => 20
    case WLock => 19
    case WTest => 18
    case WTestAbort => 17
    case WUnlock => 16
    case WCheckAbort => 15
    case WFill => 14
    case WFilling => 13
    case WInc => 12
    case WWrap => 11
    case WPushLock => 10
    case WPushSize => 9
    case WPushSignal => 8
    case WPushUnlock => 7
  }

  /** How far an aborted decoder thread is from its end, at most. */
  function Rank(s: Sys): nat {
    var d := s.dec;
    match d.pc
    case DCodec => 40
    case DFrame => 39
    case DQueue => WriterRank(s.ring.w)
    case DFeed => if !d.pending then 2 else if d.serial == d.pktSerial then 10 else 4
    case DClear => 9
    case DCheck => if d.serial == d.pktSerial then 8 else 3
    case DSend => 7
    case DTop => 6
    case DReceive => 1
    case DGet => 1
    case DAsleep => 2
    case DExit => 0
    case DStopped => 0
  }

  lemma DecodesRank(s: Sys, t: Sys)
    requires SysInv(s) && Signalled(s) && Decodes(s, t)
    ensures Rank(t) < Rank(s)
  {
    hide Indices, Contents, Counts, PushedGenuine, Tagged, AllTagged;
    assert s.ring.abort && !s.dec.pc.DAsleep? && (s.dec.pc.DCheck? ==> !s.dec.pending) &&
           (s.dec.pc.DFrame? ==> s.ring.w.WIdle?);
  }

  lemma QueuesRank(s: Sys, t: Sys)
    requires SysInv(s) && Signalled(s) && Queues(s, t)
    ensures Rank(t) < Rank(s)
  {
    hide Indices, Contents, Counts, PushedGenuine, DecInv;
  }

  /** What the others do in the meantime does not set the decoder back. */
  lemma OthersRank(s: Sys, t: Sys)
    requires SysInv(s) && Signalled(s) && Signalled(t) && (ReaderThread(s, t) || Feeds(s, t) || Controls(s, t))
    ensures Rank(t) <= Rank(s)
  {
    ReaderRank(s, t);
    FeedsRank(s, t);
    hide RingInv, DecInv, Fits, PushedGenuine, ReaderThread, Feeds, Rank;
    if Controls(s, t) && !ReaderThread(s, t) && !Feeds(s, t) { ControlsRank(s, t); }
  }

  lemma ReaderRank(s: Sys, t: Sys)
    requires SysInv(s) && Signalled(s)
    ensures ReaderThread(s, t) ==> Rank(t) <= Rank(s)
  {
    hide Indices, Contents, Counts, PushedGenuine, DecInv, ReaderNext;
    if ReaderThread(s, t) { ReaderStages(s.ring, t.ring); }
  }

  lemma FeedsRank(s: Sys, t: Sys)
    requires SysInv(s) && Signalled(s)
    ensures Feeds(s, t) ==> Rank(t) <= Rank(s)
  {
    hide Indices, Contents, Counts, PushedGenuine, Tagged, AllTagged;
  }

  lemma ControlsRank(s: Sys, t: Sys)
    requires SysInv(s) && Signalled(s) && Signalled(t) && Controls(s, t)
    ensures Rank(t) <= Rank(s)
  {
    hide Indices, Contents, Counts, PushedGenuine, DecInv, Abort;
    AbortStages(s.ring, t.ring);
  }

  /** How many of the steps a + 1 to b the decoder thread took. */
  ghost function DecoderSteps(p: seq<Sys>, a: nat, b: nat): nat
    requires a <= b < |p|
    decreases b - a
  {
    if a == b then 0 else DecoderSteps(p, a, b - 1) + One(DecoderThread(p[b - 1], p[b]))
  }

  /**
   * SDL_WaitThread returns: past the two signals the decoder thread takes at most 40 steps more, in any interleaving,
   * and DecoderCanMove says that until its end it never lacks a step to take for long.
   */
  lemma {:induction false} DecoderEndsSoon(p: seq<Sys>, a: nat, b: nat)
    requires Run(p) && a <= b < |p| && forall k :: a <= k <= b ==> Signalled(p[k])
    ensures DecoderSteps(p, a, b) + Rank(p[b]) <= Rank(p[a]) <= 40
    decreases b - a
  {
    hide Rank, Signalled, SysInv, Decodes, Queues, ReaderThread, Feeds, Controls, SysInit;
    RankBound(p[a]);
    if a < b {
      DecoderEndsSoon(p, a, b - 1);
      var s, t := p[b - 1], p[b];
      RunInv(p, b - 1);
      if Decodes(s, t) { DecodesRank(s, t); }
      else if Queues(s, t) { QueuesRank(s, t); }
      else { OthersRank(s, t); }
    }
  }

  lemma RankBound(s: Sys)
    ensures Rank(s) <= 40
  {
  }

  /** A step the writer can take: every step but taking a lock somebody else holds. */
  lemma WriterCanMove(s: Ring, f: Frame) returns (t: Ring)
    requires RingInv(s) && !s.w.WAsleep? && ((s.w.WLock? || s.w.WPushLock?) ==> s.lock == Free)
    ensures WriterNext(s, t) && (s.w.WFilling? ==> t.w.WInc? && t.hand == f)
  {
    match s.w
    case WIdle => t := s.(w := WLock);
    case WLock => t := s.(lock := Writer, w := WTest);
    case WTest => t := s.(w := if s.f.size >= s.f.max then WTestAbort else WUnlock);
    case WTestAbort => t := s.(w := if s.abort then WUnlock else WSleep);
    case WSleep => t := s.(lock := Free, w := WAsleep);
    case WUnlock => t := s.(lock := Free, w := WCheckAbort);
    case WCheckAbort => t := s.(w := if s.abort then WIdle else WFill);
    case WFill => t := s.(w := WFilling, f := s.f.(slots := s.f.slots[s.f.windex := Torn]));
    case WFilling => t := s.(w := WInc, hand := f, f := s.f.(slots := s.f.slots[s.f.windex := Full(f)]));
    case WInc => t := s.(w := WWrap, f := s.f.(windex := s.f.windex + 1));
    case WWrap => t := s.(w := WPushLock, f := s.f.(windex := Up(s.f.windex, s.f.max)));
    case WPushLock => t := s.(lock := Writer, w := WPushSize);
    case WPushSize => t := s.(w := WPushSignal, f := s.f.(size := s.f.size + 1), pushed := s.pushed + [s.hand]);
    case WPushSignal => t := if s.r.RAsleep? then s.(w := WPushUnlock, r := RLock) else s.(w := WPushUnlock);
    case WPushUnlock => t := s.(lock := Free, w := WIdle);
  }

  /** The holder of the frame queue's lock can always go on towards giving it back. */
  lemma HolderCanMove(s: Ring) returns (t: Ring)
    requires RingInv(s) && (s.lock == Reader || s.lock == Aborter)
    ensures s.lock == Reader ==> ReaderNext(s, t)
    ensures s.lock == Aborter ==> Abort(s, t) && (s.a.ASignal? || s.a.AUnlock?)
  {
    hide Place, Indices, Contents, Counts;
    if s.lock == Aborter {
      t := if s.a.AUnlock? then s.(lock := Free, a := ADone)
           else if s.w.WAsleep? then s.(a := AUnlock, w := WLock)
           else if s.r.RAsleep? then s.(a := AUnlock, r := RLock)
           else s.(a := AUnlock);
    } else {
      match s.r
      case RTest => t := s.(r := if s.f.size - s.f.shown <= 0 then RTestAbort else RUnlock);
      case RTestAbort => t := s.(r := if s.abort then RUnlock else RSleep);
      case RSleep => t := s.(lock := Free, r := RAsleep);
      case RUnlock => t := s.(lock := Free, r := RCheckAbort);
      case RNextSize => t := s.(r := RNextSignal, f := s.f.(size := s.f.size - 1));
      case RNextSignal => t := if s.w.WAsleep? then s.(r := RNextUnlock, w := WLock) else s.(r := RNextUnlock);
      case RNextUnlock => t := s.(lock := Free, r := RIdle);
      case _ => t := s;
    }
  }

  lemma DecCanMove(abort: bool, d: Dec) returns (e: Dec)
    requires !d.pc.DQueue? && !d.pc.DExit? && !d.pc.DStopped?
    ensures DecNext(abort, d, e)
  {
    match d.pc
    case DTop => e := d.(pc := if d.serial == d.pktSerial then DReceive else DFeed);
    case DReceive => e := d.(pc := if abort then DExit else DCodec);
    case DCodec => e := d.(pc := DFeed);
    case DFrame => e := d.(pc := DTop);
    case DFeed => e := if d.pending then d.(pending := false, pc := DCheck) else d.(pc := DGet);
    case DGet => e := Gets(abort, d);
    case DAsleep => e := d.(pc := DGet);
    case DClear => e := d.(pc := DCheck, codec := {}, finished := 0);
    case DCheck => e := d.(pc := if d.serial == d.pktSerial then DSend else DFeed);
    case DSend => e := d.(pc := DTop);
  }

  /** An aborted decoder that has not ended can take a step, or waits for a lock whose holder can. */
  lemma DecoderCanMove(p: seq<Sys>, n: nat)
    requires Run(p) && n < |p| && Signalled(p[n]) && !p[n].dec.pc.DExit? && !p[n].dec.pc.DStopped?
    ensures (exists t :: DecoderThread(p[n], t))
         || ((p[n].ring.w.WLock? || p[n].ring.w.WPushLock?) && exists t :: ReaderThread(p[n], t) || Controls(p[n], t))
  {
    var s := p[n];
    RunInv(p, n);
    NoLostWakeup(p, n);
    hide Place, Indices, Contents, Counts, DecInv, PushedGenuine, WriterNext, ReaderNext, Abort, DecNext;
    if !s.dec.pc.DQueue? {
      var e := DecCanMove(s.ring.abort, s.dec);
      assert DecoderThread(s, s.(dec := e));
    } else if (s.ring.w.WLock? || s.ring.w.WPushLock?) && s.ring.lock != Free {
      var r := HolderCanMove(s.ring);
      assert ReaderThread(s, s.(ring := r)) || Controls(s, s.(ring := r));
    } else {
      var r := WriterCanMove(s.ring, s.dec.frame);
      assert DecoderThread(s, Sys(r, if r.w.WIdle? then Queued(s.ring.w, s.dec) else s.dec));
    }
  }
}
