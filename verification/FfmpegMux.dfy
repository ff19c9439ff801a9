/**
 * write_packet and check_init_output_file of fftools/ffmpeg.c: the packet limit, the queue that holds packets until the
 * file header is written, and the repair of decoding timestamps. Specification functions and the laws they keep.
 */
module FfmpegMux {
  import opened Basics

  datatype Kind = VIDEO | AUDIO | SUBTITLE | OTHER

  /**
   * What write_packet looks at but does not change. Queue lengths count packets, where the source counts bytes of
   * packet pointers: `initial` is the length its fifo is allocated for.
   */
  datatype Config = Config(kind: Kind, encoding: bool, copy: bool, vp9: bool, noTimestamps: bool, nonstrict: bool,
                           vsyncDrop: bool, audioSync: int, maxFrames: int, initial: nat, maxQueue: int, threshold: nat)

  /** Times are in the time base of the output stream; None is AV_NOPTS_VALUE, which is below every time. */
  datatype Packet = Packet(id: nat, size: nat, pts: Option<int>, dts: Option<int>)

  datatype Stream = Stream(ready: bool, frameNumber: nat, queue: seq<Packet>, room: nat, bytes: int,
                           lastDts: Option<int>, muxed: seq<Packet>)

  function Start(c: Config): Stream { Stream(false, 0, [], c.initial, 0, None, []) }

  // ---- the timestamp repair ------------------------------------------------------------------------------------

  predicate Clears(c: Config) { (c.kind == VIDEO && c.vsyncDrop) || (c.kind == AUDIO && c.audioSync < 0) }

  /** The streams whose dts are kept ascending. */
  predicate Repairs(c: Config) { !c.noTimestamps && c.kind != OTHER && !(c.vp9 && c.copy) }

  /** The least step from one dts to the next. */
  function Gap(c: Config): int { if c.nonstrict then 0 else 1 }

  function Middle(a: int, b: int, c: int): int { a + b + c - Min(Min(a, b), c) - Max(Max(a, b), c) }

  /** A dts after its pts: both become the middle one of pts, dts and the time after the last dts. */
  function Guessed(c: Config, last: Option<int>, p: Packet): Packet {
    if !c.noTimestamps && p.pts.Some? && p.dts.Some? && p.dts.value > p.pts.value then
      var t := if last.None? then p.pts.value else Middle(p.pts.value, p.dts.value, last.value + 1);
      p.(pts := Some(t), dts := Some(t))
    else p
  }

  /** A dts before the least allowed one is raised to it, and the pts with it. */
  function Raised(c: Config, last: Option<int>, p: Packet): Packet {
    if Repairs(c) && p.dts.Some? && last.Some? && p.dts.value < last.value + Gap(c) then
      var least := last.value + Gap(c);
      p.(dts := Some(least),
         pts := if p.pts.Some? && p.pts.value >= p.dts.value then Some(Max(p.pts.value, least)) else p.pts)
    else p
  }

  function Repair(c: Config, last: Option<int>, p: Packet): Packet {
    var q := if Clears(c) then p.(pts := None, dts := None) else p;
    Raised(c, last, Guessed(c, last, q))
  }

  function LastDts(ps: seq<Packet>): Option<int> { if ps == [] then None else ps[|ps| - 1].dts }

  /** The packets of one stream, each repaired against the one before. */
  function RepairAll(c: Config, ps: seq<Packet>): (r: seq<Packet>)
    ensures |r| == |ps|
  {
    if ps == [] then [] else
      var r := RepairAll(c, ps[..|ps| - 1]);
      r + [Repair(c, LastDts(r), ps[|ps| - 1])]
  }

  // ---- what the muxer accepts ------------------------------------------------------------------------------------

  ghost predicate InOrder(p: Packet) { p.pts.Some? && p.dts.Some? ==> p.dts.value <= p.pts.value }

  ghost predicate Follows(c: Config, last: Option<int>, p: Packet) {
    last.Some? && p.dts.Some? ==> last.value + Gap(c) <= p.dts.value
  }

  /** A packet that needs no repair. */
  ghost predicate Fine(c: Config, last: Option<int>, p: Packet) {
    && (Clears(c) ==> p.pts == None && p.dts == None)
    && (!c.noTimestamps ==> InOrder(p))
    && (Repairs(c) ==> Follows(c, last, p))
  }

  function Before(ps: seq<Packet>, k: nat): Option<int>
    requires k < |ps|
  {
    if k == 0 then None else ps[k - 1].dts
  }

  ghost predicate AllFine(c: Config, ps: seq<Packet>) {
    forall k :: 0 <= k < |ps| ==> Fine(c, Before(ps, k), ps[k])
  }

  lemma RepairedIsFine(c: Config, last: Option<int>, p: Packet)
    ensures Fine(c, last, Repair(c, last, p))
    ensures Repair(c, last, p) == p <==> Fine(c, last, p)
    ensures Repair(c, last, p).id == p.id && Repair(c, last, p).size == p.size
    ensures !Clears(c) ==>
              (Repair(c, last, p).dts.Some? <==> p.dts.Some?) && (Repair(c, last, p).pts.Some? <==> p.pts.Some?)
  {
  }

  /** A packet in order is changed as little as possible: no later packet that keeps the rules has smaller times. */
  lemma RepairIsLeast(c: Config, last: Option<int>, p: Packet, q: Packet)
    requires !Clears(c) && !c.noTimestamps && InOrder(p) && Fine(c, last, q)
    requires p.dts.Some? ==> q.dts.Some? && q.dts.value >= p.dts.value
    requires p.pts.Some? ==> q.pts.Some? && q.pts.value >= p.pts.value
    ensures p.dts.Some? ==> p.dts.value <= Repair(c, last, p).dts.value <= q.dts.value
    ensures p.pts.Some? ==> p.pts.value <= Repair(c, last, p).pts.value <= q.pts.value
  {
  }

  /**
   * A packet out of order gets one time for both: the time after the last dts, kept between the pts and the dts given.
   */
  lemma OutOfOrderIsClamped(c: Config, last: Option<int>, p: Packet)
    requires !Clears(c) && !c.noTimestamps && !InOrder(p)
    ensures var r := Repair(c, last, p);
            && r.pts == r.dts && r.dts.Some?
            && (last.None? ==> r.dts == p.pts)
            && (last.Some? && last.value < p.pts.value ==> r.dts == p.pts)
            && (last.Some? && p.pts.value <= last.value < p.dts.value ==> r.dts == Some(last.value + 1))
            && (last.Some? && p.dts.value <= last.value ==>
                r.dts == if Repairs(c) then Some(last.value + Gap(c)) else p.dts)
  {
  }

  /** Entry by entry: what was muxed before entry k decides what entry k becomes. */
  lemma {:induction false} RepairAllAt(c: Config, ps: seq<Packet>, k: nat)
    requires k < |ps|
    ensures RepairAll(c, ps)[k] == Repair(c, Before(RepairAll(c, ps), k), ps[k])
    ensures RepairAll(c, ps)[..k] == RepairAll(c, ps[..k])
  {
    var n := |ps| - 1;
    var r := RepairAll(c, ps[..n]);
    if k < n {
      RepairAllAt(c, ps[..n], k);
      assert ps[..n][..k] == ps[..k];
      assert RepairAll(c, ps)[..k] == r[..k];
      assert k > 0 ==> RepairAll(c, ps)[k - 1] == r[k - 1];
    } else {
      assert RepairAll(c, ps)[..k] == r;
    }
  }

  lemma RepairedAt(c: Config, ps: seq<Packet>, k: nat)
    requires k < |ps|
    ensures var q := RepairAll(c, ps)[k];
            && Fine(c, Before(RepairAll(c, ps), k), q) && q.id == ps[k].id && q.size == ps[k].size
            && (!Clears(c) ==> (q.dts.Some? <==> ps[k].dts.Some?))
  {
    RepairAllAt(c, ps, k);
    RepairedIsFine(c, Before(RepairAll(c, ps), k), ps[k]);
  }

  /** Nothing is lost, repeated or reordered, and every packet that reaches the muxer keeps the muxer's rules. */
  lemma RepairAllFine(c: Config, ps: seq<Packet>)
    ensures AllFine(c, RepairAll(c, ps))
    ensures forall k :: 0 <= k < |ps| ==> RepairAll(c, ps)[k].id == ps[k].id && RepairAll(c, ps)[k].size == ps[k].size
    ensures !Clears(c) ==> forall k :: 0 <= k < |ps| ==> (RepairAll(c, ps)[k].dts.Some? <==> ps[k].dts.Some?)
  {
    forall k | 0 <= k < |ps|
      ensures Fine(c, Before(RepairAll(c, ps), k), RepairAll(c, ps)[k])
      ensures RepairAll(c, ps)[k].id == ps[k].id && RepairAll(c, ps)[k].size == ps[k].size
      ensures !Clears(c) ==> (RepairAll(c, ps)[k].dts.Some? <==> ps[k].dts.Some?)
    {
      RepairedAt(c, ps, k);
    }
  }

  /** The repair changes exactly the packet sequences that break a rule; so repairing twice is repairing once. */
  lemma {:induction false} UnchangedIffFine(c: Config, ps: seq<Packet>)
    ensures RepairAll(c, ps) == ps <==> AllFine(c, ps)
  {
    var r := RepairAll(c, ps);
    if AllFine(c, ps) {
      SameSoFar(c, ps, |ps|);
    } else {
      RepairAllFine(c, ps);
    }
  }

  lemma {:induction false} SameSoFar(c: Config, ps: seq<Packet>, k: nat)
    requires AllFine(c, ps) && k <= |ps|
    ensures RepairAll(c, ps)[..k] == ps[..k]
  {
    hide Repair, RepairAll, Fine;
    if k > 0 {
      SameSoFar(c, ps, k - 1);
      RepairAllAt(c, ps, k - 1);
      var r := RepairAll(c, ps);
      assert k > 1 ==> r[k - 2] == r[..k - 1][k - 2] == ps[..k - 1][k - 2];
      RepairedIsFine(c, Before(ps, k - 1), ps[k - 1]);
      assert r[..k] == r[..k - 1] + [r[k - 1]];
      assert ps[..k] == ps[..k - 1] + [ps[k - 1]];
    }
  }

  lemma RepairTwice(c: Config, ps: seq<Packet>)
    ensures RepairAll(c, RepairAll(c, ps)) == RepairAll(c, ps)
  {
    RepairAllFine(c, ps);
    UnchangedIffFine(c, RepairAll(c, ps));
  }

  /**
   * With a dts on every packet, the muxed dts ascend over the whole stream: strictly unless the muxer is non-strict.
   */
  lemma {:induction false} DtsAscend(c: Config, ps: seq<Packet>, i: nat, j: nat)
    requires Repairs(c) && !Clears(c) && i < j < |ps|
    requires forall k :: i <= k <= j ==> ps[k].dts.Some?
    ensures var r := RepairAll(c, ps);
            r[i].dts.Some? && r[j].dts.Some? && r[i].dts.value + Gap(c) <= r[j].dts.value
    decreases j - i
  {
    hide RepairAll, Repair;
    RepairedAt(c, ps, i);
    RepairedAt(c, ps, j);
    if i + 1 < j { DtsAscend(c, ps, i, j - 1); }
  }

  ghost predicate SamePresence(ps: seq<Packet>, qs: seq<Packet>) {
    |ps| == |qs| && forall k :: 0 <= k < |ps| ==> (ps[k].dts.Some? <==> qs[k].dts.Some?)
  }

  /**
   * One packet without a dts and everything before it is forgotten: later packets may fall back below what was muxed.
   */
  lemma MissingDtsForgets(c: Config, ps: seq<Packet>, i: nat, k: nat, j: nat) returns (qs: seq<Packet>)
    requires Repairs(c) && !Clears(c) && i < k < j < |ps|
    requires ps[i].dts.Some? && ps[k].dts.None? && ps[j].dts.Some?
    ensures SamePresence(ps, qs) && RepairAll(c, qs) == qs && qs[j].dts.value < qs[i].dts.value
  {
    qs := seq(|ps|, m requires 0 <= m < |ps| =>
      Packet(m, 1, None, if ps[m].dts.None? then None else Some(if m < k then |ps| + m else m)));
    forall m | 0 <= m < |qs| ensures Fine(c, Before(qs, m), qs[m]) {}
    UnchangedIffFine(c, qs);
  }

  /** Whatever times the packets carry, the dts of `i` and `j` are muxed in ascending order. */
  ghost predicate OrderKept(c: Config, ps: seq<Packet>, i: nat, j: nat)
    requires i < |ps| && j < |ps|
  {
    forall qs :: SamePresence(ps, qs) ==>
      var r := RepairAll(c, qs);
      r[i].dts.Some? && r[j].dts.Some? && r[i].dts.value + Gap(c) <= r[j].dts.value
  }

  /**
   * The order of two packets with a dts is kept for all times if and only if every packet between them has a dts too.
   */
  lemma OrderKeptIff(c: Config, ps: seq<Packet>, i: nat, j: nat)
    requires Repairs(c) && !Clears(c) && i < j < |ps| && ps[i].dts.Some? && ps[j].dts.Some?
    ensures OrderKept(c, ps, i, j) <==> forall k :: i < k < j ==> ps[k].dts.Some?
  {
    hide RepairAll, Repairs, Clears;
    if forall k :: i < k < j ==> ps[k].dts.Some? {
      forall qs | SamePresence(ps, qs)
        ensures var r := RepairAll(c, qs);
                r[i].dts.Some? && r[j].dts.Some? && r[i].dts.value + Gap(c) <= r[j].dts.value
      {
        DtsAscend(c, qs, i, j);
      }
    } else {
      var k :| i < k < j && ps[k].dts.None?;
      var qs := MissingDtsForgets(c, ps, i, k, j);
      assert SamePresence(ps, qs);
    }
  }

  /**
   * Which streams are put in order: audio, video and subtitles, unless the muxer takes no timestamps, the stream is
   * copied VP9, or its times are dropped altogether. In all others a packet in order passes as it is.
   */
  lemma WhichStreamsAscend(c: Config, ps: seq<Packet>, i: nat, j: nat)
    requires i < j < |ps| && forall k :: i <= k <= j ==> ps[k].dts.Some?
    requires !(c.kind == VIDEO && c.vsyncDrop) && !(c.kind == AUDIO && c.audioSync < 0)
    ensures var r := RepairAll(c, ps);
            !c.noTimestamps && c.kind in {VIDEO, AUDIO, SUBTITLE} && (c.vp9 ==> !c.copy) ==>
              r[i].dts.Some? && r[j].dts.Some?
              && if c.nonstrict then r[i].dts.value <= r[j].dts.value else r[i].dts.value < r[j].dts.value
    ensures c.noTimestamps || c.kind == OTHER || (c.vp9 && c.copy) ==>
              (InOrder(ps[j]) || c.noTimestamps ==> RepairAll(c, ps)[j] == ps[j])
  {
    hide RepairAll;
    RepairAllAt(c, ps, j);
    if !c.noTimestamps && c.kind in {VIDEO, AUDIO, SUBTITLE} && (c.vp9 ==> !c.copy) {
      hide Repair;
      DtsAscend(c, ps, i, j);
    }
  }

  /** Video frames timed by nothing and audio that is not to be kept in time reach the muxer without times. */
  lemma TimesDropped(c: Config, ps: seq<Packet>, k: nat)
    requires k < |ps| && ((c.kind == VIDEO && c.vsyncDrop) || (c.kind == AUDIO && c.audioSync < 0))
    ensures RepairAll(c, ps)[k] == ps[k].(pts := None, dts := None)
  {
    RepairAllAt(c, ps, k);
    hide RepairAll;
  }

  // ---- one stream ---------------------------------------------------------------------------------------------------

  predicate Counts(c: Config) { !(c.kind == VIDEO && c.encoding) }

  function Bytes(ps: seq<Packet>): nat { if ps == [] then 0 else Bytes(ps[..|ps| - 1]) + ps[|ps| - 1].size }

  function Mux(c: Config, st: Stream, p: Packet): Stream {
    var q := Repair(c, st.lastDts, p);
    st.(lastDts := q.dts, muxed := st.muxed + [q])
  }

  /** The length a full queue grows to. */
  function Grown(c: Config, st: Stream, p: Packet): int {
    if st.bytes + p.size > c.threshold then Min(2 * |st.queue|, c.maxQueue) else 2 * |st.queue|
  }

  /** None: too many packets buffered, which ends the program. */
  function Enqueue(c: Config, st: Stream, p: Packet): Option<Stream> {
    if |st.queue| >= st.room && Grown(c, st, p) <= |st.queue| then None
    else Some(st.(queue := st.queue + [p], bytes := st.bytes + p.size,
                  room := if |st.queue| >= st.room then Grown(c, st, p) else st.room))
  }

  /** A packet from the encoder or the stream copy. */
  function Write(c: Config, st: Stream, p: Packet, header: bool): Option<Stream> {
    if Counts(c) && st.frameNumber >= c.maxFrames then Some(st) else
      var s := st.(frameNumber := st.frameNumber + One(Counts(c)));
      if header then Some(Mux(c, s, p)) else Enqueue(c, s, p)
  }

  /** The queue of one stream, written out once the header is. */
  function Flush(c: Config, st: Stream): Stream
    decreases |st.queue|
  {
    if st.queue == [] then st
    else Flush(c, Mux(c, st.(queue := st.queue[1..], bytes := st.bytes - st.queue[0].size), st.queue[0]))
  }

  // ---- the file -----------------------------------------------------------------------------------------------------

  datatype File = File(header: bool, streams: seq<Stream>)

  datatype Event = Submit(i: nat, p: Packet) | Init(i: nat)

  predicate AllReady(streams: seq<Stream>) { forall k :: 0 <= k < |streams| ==> streams[k].ready }

  function FlushAll(cs: seq<Config>, streams: seq<Stream>): (r: seq<Stream>)
    requires |cs| == |streams|
    ensures |r| == |streams|
  {
    seq(|cs|, k requires 0 <= k < |cs| => Flush(cs[k], streams[k]))
  }

  /** A stream becomes ready; with the last one the header is written and the queues are flushed. */
  function Readied(cs: seq<Config>, f: File, i: nat): (r: File)
    requires |f.streams| == |cs| && i < |cs|
    ensures |r.streams| == |cs|
  {
    var s := f.streams[i := f.streams[i].(ready := true)];
    if AllReady(s) then File(true, FlushAll(cs, s)) else File(f.header, s)
  }

  function Step(cs: seq<Config>, f: File, e: Event): (r: Option<File>)
    requires |f.streams| == |cs| && e.i < |cs|
    ensures r.Some? ==> |r.value.streams| == |cs|
  {
    match e
    case Submit(i, p) =>
      var s := Write(cs[i], f.streams[i], p, f.header);
      if s.None? then None else Some(f.(streams := f.streams[i := s.value]))
    case Init(i) => Some(if f.streams[i].ready then f else Readied(cs, f, i))
  }

  function StartFile(cs: seq<Config>): (f: File)
    ensures |f.streams| == |cs|
  {
    File(false, seq(|cs|, k requires 0 <= k < |cs| => Start(cs[k])))
  }

  predicate Named(cs: seq<Config>, es: seq<Event>) {
    && cs != []
    && (forall k :: 0 <= k < |cs| ==> cs[k].initial > 0)
    && (forall k :: 0 <= k < |es| ==> es[k].i < |cs|)
  }

  /** Any interleaving of packets and initialisations; None once a queue overflowed. */
  function Run(cs: seq<Config>, es: seq<Event>): (r: Option<File>)
    requires Named(cs, es)
    ensures r.Some? ==> |r.value.streams| == |cs|
  {
    if es == [] then Some(StartFile(cs)) else
      var f := Run(cs, es[..|es| - 1]);
      if f.None? then None else Step(cs, f.value, es[|es| - 1])
  }

  /** The packets submitted to one stream, in order. */
  function Submitted(es: seq<Event>, i: nat): seq<Packet> {
    if es == [] then [] else
      var e := es[|es| - 1];
      Submitted(es[..|es| - 1], i) + (if e.Submit? && e.i == i then [e.p] else [])
  }

  /** The packets the limit lets through: the first maxFrames ones, or all of an encoded video stream. */
  function Taken(c: Config, ps: seq<Packet>): seq<Packet> {
    if Counts(c) then ps[..Min(|ps|, Max(0, c.maxFrames))] else ps
  }

  // ---- header-time independence -------------------------------------------------------------------------------------

  /**
   * What every reachable state says about a stream that was sent `ps`: before the header the queue is what was taken
   * and nothing is muxed; after it the queue is empty and what was taken is muxed, repaired, whatever was queued.
   */
  ghost predicate Accounts(c: Config, st: Stream, header: bool, ps: seq<Packet>) {
    && st.frameNumber == (if Counts(c) then |Taken(c, ps)| else 0)
    && st.bytes == Bytes(st.queue) && |st.queue| <= st.room && 0 < st.room
    && st.lastDts == LastDts(st.muxed)
    && (header ==> st.ready && st.queue == [] && st.muxed == RepairAll(c, Taken(c, ps)))
    && (!header ==> st.queue == Taken(c, ps) && st.muxed == [])
  }

  lemma {:induction false} BytesFirst(ps: seq<Packet>)
    requires ps != []
    ensures Bytes(ps) == ps[0].size + Bytes(ps[1..])
  {
    var n := |ps| - 1;
    if n > 0 {
      BytesFirst(ps[..n]);
      assert ps[..n][1..] == ps[1..][..n - 1];
    } else {
      assert ps[..n] == ps[1..] == [];
    }
  }

  lemma BytesPush(ps: seq<Packet>, p: Packet)
    ensures Bytes(ps + [p]) == Bytes(ps) + p.size
  {
    assert (ps + [p])[..|ps|] == ps;
  }

  lemma RepairAllPush(c: Config, ps: seq<Packet>, p: Packet)
    ensures RepairAll(c, ps + [p]) == RepairAll(c, ps) + [Repair(c, LastDts(RepairAll(c, ps)), p)]
  {
    assert (ps + [p])[..|ps|] == ps;
  }

  /** Flushing after `done` was muxed leaves what muxing done and the queue in one go would have left. */
  lemma {:induction false} FlushMuxes(c: Config, st: Stream, done: seq<Packet>)
    requires st.muxed == RepairAll(c, done) && st.lastDts == LastDts(st.muxed) && st.bytes == Bytes(st.queue)
    ensures var r := RepairAll(c, done + st.queue);
            Flush(c, st) == st.(queue := [], bytes := 0, muxed := r, lastDts := LastDts(r))
    decreases |st.queue|
  {
    hide Mux, RepairAll, Bytes, LastDts;
    if st.queue == [] {
      assert done + st.queue == done;
      NoBytes();
    } else {
      var p, rest := st.queue[0], st.queue[1..];
      BytesFirst(st.queue);
      assert done + st.queue == (done + [p]) + rest;
      var popped := st.(queue := rest, bytes := st.bytes - p.size);
      MuxOne(c, popped, done, p);
      FlushMuxes(c, Mux(c, popped, p), done + [p]);
    }
  }

  lemma NoBytes()
    ensures Bytes([]) == 0
  {
  }

  lemma MuxOne(c: Config, st: Stream, done: seq<Packet>, p: Packet)
    requires st.muxed == RepairAll(c, done) && st.lastDts == LastDts(st.muxed)
    ensures var r := RepairAll(c, done + [p]);
            Mux(c, st, p) == st.(muxed := r, lastDts := LastDts(r))
  {
    RepairAllPush(c, done, p);
  }

  lemma TakenPush(c: Config, ps: seq<Packet>, p: Packet)
    ensures var taken := Taken(c, ps);
            Taken(c, ps + [p]) == if Counts(c) && |taken| >= c.maxFrames then taken else taken + [p]
  {
  }

  lemma WriteAccounts(c: Config, st: Stream, header: bool, ps: seq<Packet>, p: Packet)
    requires Accounts(c, st, header, ps)
    ensures Write(c, st, p, header).Some? ==> Accounts(c, Write(c, st, p, header).value, header, ps + [p])
  {
    hide Taken, Repair, RepairAll, Bytes, LastDts, Mux;
    TakenPush(c, ps, p);
    BytesPush(st.queue, p);
    if header && !(Counts(c) && st.frameNumber >= c.maxFrames) {
      MuxOne(c, st.(frameNumber := st.frameNumber + One(Counts(c))), Taken(c, ps), p);
    }
  }

  lemma FlushAccounts(c: Config, st: Stream, ps: seq<Packet>)
    requires Accounts(c, st, false, ps) && st.ready
    ensures Accounts(c, Flush(c, st), true, ps)
  {
    assert [] + st.queue == st.queue;
    FlushMuxes(c, st, []);
  }

  ghost predicate FileAccounts(cs: seq<Config>, f: File, es: seq<Event>) {
    && |f.streams| == |cs|
    && (forall k :: 0 <= k < |cs| ==> Accounts(cs[k], f.streams[k], f.header, Submitted(es, k)))
  }

  lemma StepAccounts(cs: seq<Config>, f: File, es: seq<Event>, e: Event)
    requires FileAccounts(cs, f, es) && e.i < |cs|
    ensures Step(cs, f, e).Some? ==> FileAccounts(cs, Step(cs, f, e).value, es + [e])
  {
    hide RepairAll, Repair, Taken, Accounts, Write, Flush;
    assert (es + [e])[..|es|] == es;
    if e.Submit? {
      WriteAccounts(cs[e.i], f.streams[e.i], f.header, Submitted(es, e.i), e.p);
      forall k | 0 <= k < |cs| && Step(cs, f, e).Some?
        ensures Accounts(cs[k], Step(cs, f, e).value.streams[k], f.header, Submitted(es + [e], k))
      {
        if k != e.i { assert Submitted(es + [e], k) == Submitted(es, k); }
      }
    } else {
      forall k | 0 <= k < |cs| ensures Submitted(es + [e], k) == Submitted(es, k) {}
      if !f.streams[e.i].ready { ReadiedAccounts(cs, f, es, e.i); }
    }
  }

  lemma ReadiedAccounts(cs: seq<Config>, f: File, es: seq<Event>, i: nat)
    requires FileAccounts(cs, f, es) && i < |cs| && !f.streams[i].ready
    ensures FileAccounts(cs, Readied(cs, f, i), es)
  {
    hide RepairAll, Repair, Taken, Bytes, LastDts;
    var s := f.streams[i := f.streams[i].(ready := true)];
    assert !f.header by { assert Accounts(cs[i], f.streams[i], f.header, Submitted(es, i)); }
    forall k | 0 <= k < |cs|
      ensures Accounts(cs[k], s[k], false, Submitted(es, k))
      ensures AllReady(s) ==> Accounts(cs[k], Flush(cs[k], s[k]), true, Submitted(es, k))
    {
      assert Accounts(cs[k], f.streams[k], false, Submitted(es, k));
      if AllReady(s) { FlushAccounts(cs[k], s[k], Submitted(es, k)); }
    }
  }

  /** Over every run that no full queue ended, every stream accounts for everything it was sent. */
  lemma {:induction false} RunAccounts(cs: seq<Config>, es: seq<Event>)
    requires Named(cs, es) && Run(cs, es).Some?
    ensures FileAccounts(cs, Run(cs, es).value, es)
  {
    hide Step, Accounts;
    if es != [] {
      var n := |es| - 1;
      RunAccounts(cs, es[..n]);
      StepAccounts(cs, Run(cs, es[..n]).value, es[..n], es[n]);
      assert es[..n] + [es[n]] == es;
    } else {
      forall k | 0 <= k < |cs| ensures Accounts(cs[k], Start(cs[k]), false, Submitted(es, k)) { StartAccounts(cs[k]); }
    }
  }

  lemma StartAccounts(c: Config)
    requires c.initial > 0
    ensures Accounts(c, Start(c), false, [])
  {
  }

  /**
   * A full queue doubles, or is cut to the packet limit once the data threshold would be passed; others keep their
   * room.
   */
  lemma RoomDoubles(c: Config, st: Stream, ps: seq<Packet>, p: Packet)
    requires Accounts(c, st, false, ps) && Write(c, st, p, false).Some?
    ensures var t := Write(c, st, p, false).value;
            var taken, over := |t.queue| > |st.queue|, Bytes(st.queue) + p.size > c.threshold;
            && |st.queue| <= |t.queue| <= |st.queue| + 1
            && (taken <==> Counts(c) ==> |ps| < c.maxFrames)
            && t.room == if !taken || |st.queue| < st.room then st.room
                         else if over then Min(2 * st.room, c.maxQueue) else 2 * st.room
  {
  }

  // ---- when the header is written -----------------------------------------------------------------------------------

  lemma {:induction false} FlushKeepsReady(c: Config, st: Stream)
    ensures Flush(c, st).ready == st.ready
    decreases |st.queue|
  {
    hide Repair;
    if st.queue != [] {
      var popped := st.(queue := st.queue[1..], bytes := st.bytes - st.queue[0].size);
      FlushKeepsReady(c, Mux(c, popped, st.queue[0]));
    }
  }

  lemma WriteKeepsReady(c: Config, st: Stream, p: Packet, header: bool)
    ensures Write(c, st, p, header).Some? ==> Write(c, st, p, header).value.ready == st.ready
  {
    hide Repair;
  }

  /** Stream `k` is ready exactly if it was initialised, and there is a header exactly if all streams are. */
  ghost predicate ReadyWhenInit(cs: seq<Config>, f: File, es: seq<Event>) {
    && |f.streams| == |cs|
    && (forall k: nat :: k < |cs| ==> (f.streams[k].ready <==> Init(k) in es))
    && (f.header <==> AllReady(f.streams))
  }

  lemma StepReady(cs: seq<Config>, f: File, es: seq<Event>, e: Event)
    requires ReadyWhenInit(cs, f, es) && e.i < |cs|
    ensures Step(cs, f, e).Some? ==> ReadyWhenInit(cs, Step(cs, f, e).value, es + [e])
  {
    hide Write, Flush;
    if e.Submit? {
      WriteKeepsReady(cs[e.i], f.streams[e.i], e.p, f.header);
      if Step(cs, f, e).Some? { SameReady(f.streams, Step(cs, f, e).value.streams); }
    } else if !f.streams[e.i].ready {
      var s := f.streams[e.i := f.streams[e.i].(ready := true)];
      assert !f.header;
      forall k | 0 <= k < |cs| ensures Flush(cs[k], s[k]).ready == s[k].ready { FlushKeepsReady(cs[k], s[k]); }
      SameReady(s, FlushAll(cs, s));
    }
  }

  lemma SameReady(a: seq<Stream>, b: seq<Stream>)
    requires |a| == |b| && forall k :: 0 <= k < |a| ==> a[k].ready == b[k].ready
    ensures AllReady(a) <==> AllReady(b)
  {
  }

  /** The header is written exactly when the last stream is initialised: it is there if and only if all of them were. */
  lemma {:induction false} HeaderIffAllInit(cs: seq<Config>, es: seq<Event>)
    requires Named(cs, es) && Run(cs, es).Some?
    ensures ReadyWhenInit(cs, Run(cs, es).value, es)
    ensures Run(cs, es).value.header <==> forall k: nat :: k < |cs| ==> Init(k) in es
  {
    hide Step;
    if es == [] {
      assert !StartFile(cs).streams[0].ready && Init(0) !in es;
    } else {
      var n := |es| - 1;
      HeaderIffAllInit(cs, es[..n]);
      assert es[..n] + [es[n]] == es;
      StepReady(cs, Run(cs, es[..n]).value, es[..n], es[n]);
    }
  }

  ghost predicate AllInit(cs: seq<Config>, es: seq<Event>) { forall k: nat :: k < |cs| ==> Init(k) in es }

  /**
   * Of a run that initialises every stream, whenever it does, the muxer gets of each stream the packets sent: all of an
   * encoded video stream, the first maxFrames of any other, in order and each once, repaired; nothing stays queued.
   */
  lemma MuxedOfRun(cs: seq<Config>, es: seq<Event>, i: nat)
    requires Named(cs, es) && i < |cs| && Run(cs, es).Some? && AllInit(cs, es)
    ensures var c, ps, st := cs[i], Submitted(es, i), Run(cs, es).value.streams[i];
            var limit := if c.kind == VIDEO && c.encoding then |ps| else Min(|ps|, Max(0, c.maxFrames));
            st.queue == [] && st.muxed == RepairAll(c, ps[..limit])
  {
    RunAccounts(cs, es);
    HeaderIffAllInit(cs, es);
    hide Run, RepairAll, Repair;
    var c, ps := cs[i], Submitted(es, i);
    assert Accounts(c, Run(cs, es).value.streams[i], true, ps);
    assert ps[..|ps|] == ps;
  }

  /** Before the last stream is initialised nothing is muxed, and what was taken of a stream waits in its queue. */
  lemma QueuedBeforeHeader(cs: seq<Config>, es: seq<Event>, i: nat)
    requires Named(cs, es) && i < |cs| && Run(cs, es).Some? && !AllInit(cs, es)
    ensures var st := Run(cs, es).value.streams[i];
            st.muxed == [] && st.queue == Taken(cs[i], Submitted(es, i)) && st.bytes == Bytes(st.queue)
  {
    RunAccounts(cs, es);
    HeaderIffAllInit(cs, es);
    hide Run, RepairAll, Repair;
    assert Accounts(cs[i], Run(cs, es).value.streams[i], false, Submitted(es, i));
  }

  /**
   * Header-time independence: two runs that initialise all streams and send one of them the same packets mux the same
   * packets for it, whenever the streams were initialised.
   */
  lemma HeaderTimeIndependence(cs: seq<Config>, one: seq<Event>, two: seq<Event>, i: nat)
    requires Named(cs, one) && Named(cs, two) && i < |cs|
    requires Run(cs, one).Some? && Run(cs, two).Some? && AllInit(cs, one) && AllInit(cs, two)
    requires Submitted(one, i) == Submitted(two, i)
    ensures Run(cs, one).value.streams[i].muxed == Run(cs, two).value.streams[i].muxed
  {
    MuxedOfRun(cs, one, i);
    MuxedOfRun(cs, two, i);
  }

  // ---- overflow -----------------------------------------------------------------------------------------------------

  /**
   * A packet ends the program exactly when the queue is full, already holds maxQueue packets, and would pass the
   * threshold.
   */
  lemma RefusedExactly(c: Config, st: Stream, ps: seq<Packet>, p: Packet, header: bool)
    requires Accounts(c, st, header, ps)
    ensures Write(c, st, p, header).None?
       <==> !header && |st.queue| == st.room && |st.queue| >= c.maxQueue && Bytes(st.queue) + p.size > c.threshold
            && (Counts(c) ==> |ps| < c.maxFrames)
  {
  }

  lemma {:induction false} BytesOfPrefix(ps: seq<Packet>, k: nat)
    requires k <= |ps|
    ensures Bytes(ps[..k]) <= Bytes(ps)
  {
    if k < |ps| {
      var n := |ps| - 1;
      BytesOfPrefix(ps[..n], k);
      assert ps[..n][..k] == ps[..k];
    } else {
      assert ps[..k] == ps;
    }
  }

  /** A stream whose packets together stay within the threshold never ends the program. */
  lemma {:induction false} SmallRunsFinish(cs: seq<Config>, es: seq<Event>)
    requires Named(cs, es) && forall k :: 0 <= k < |cs| ==> Bytes(Submitted(es, k)) <= cs[k].threshold
    ensures Run(cs, es).Some?
  {
    if es != [] {
      var n := |es| - 1;
      forall k | 0 <= k < |cs| ensures Bytes(Submitted(es[..n], k)) <= cs[k].threshold {
        var ps := Submitted(es[..n], k);
        assert ps <= Submitted(es, k);
        BytesOfPrefix(Submitted(es, k), |ps|);
      }
      SmallRunsFinish(cs, es[..n]);
      RunAccounts(cs, es[..n]);
      if es[n].Submit? {
        var i := es[n].i;
        var ps := Submitted(es[..n], i);
        var st := Run(cs, es[..n]).value.streams[i];
        RefusedExactly(cs[i], st, ps, es[n].p, Run(cs, es[..n]).value.header);
        BytesOfPrefix(ps, |Taken(cs[i], ps)|);
        assert Submitted(es, i)[..|ps|] == ps;
      }
    }
  }
}
