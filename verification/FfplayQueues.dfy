/**
 * PacketQueue and FrameQueue of fftools/ffplay.c in place: what one thread's call does while no other thread is inside
 * the queue, tied to the steps of the machines.
 */
module FfplayQueues {
  import opened Basics
  import opened FfplayRing
  import opened FfplayDecoder

  // ---- PacketQueue -----------------------------------------------------------------------------------------------

  datatype AvPacket = AvPacket(size: nat, duration: int)

  /** MyAVPacketList. */
  datatype Entry = Entry(pkt: AvPacket, serial: nat)

  /** sizeof(MyAVPacketList), which every queued packet is charged with. */
  const OVERHEAD := 16

  function Bytes(es: seq<Entry>): int {
    if es == [] then 0 else Bytes(es[..|es| - 1]) + es[|es| - 1].pkt.size + OVERHEAD
  }

  function Duration(es: seq<Entry>): int {
    if es == [] then 0 else Duration(es[..|es| - 1]) + es[|es| - 1].pkt.duration
  }

  lemma {:induction false} TakeFirst(es: seq<Entry>)
    requires es != []
    ensures Bytes(es) == es[0].pkt.size + OVERHEAD + Bytes(es[1..])
    ensures Duration(es) == es[0].pkt.duration + Duration(es[1..])
  {
    var n := |es| - 1;
    if n > 0 {
      TakeFirst(es[..n]);
      assert es[..n][1..] == es[1..][..n - 1];
    } else {
      assert es[..n] == es[1..] == [];
    }
  }

  /** What packet_queue_get returns; Waits where it sleeps on the condition variable. */
  datatype Got = Aborted | Nothing | Waits | Took(pkt: AvPacket, serial: nat)

  class PacketQueue {
    var pktList: seq<Entry>
    var nbPackets: int
    var size: int
    var duration: int
    var abortRequest: bool
    var serial: nat
    /** Where in the queue's log each packet was put. */
    ghost var at: seq<nat>
    /** A thread sleeps on the condition variable. */
    ghost var asleep: bool

    constructor ()
      ensures Valid() && pktList == [] && serial == 0 && abortRequest && !asleep
    {
      pktList, nbPackets, size, duration, abortRequest, serial, at, asleep := [], 0, 0, 0, true, 0, [], false;
    }

    /** The three counters say what the list holds. */
    ghost predicate Valid()
      reads this
    {
      nbPackets == |pktList| == |at| && size == Bytes(pktList) && duration == Duration(pktList)
    }

    ghost function Packets(): seq<Packet>
      requires Valid()
      reads this
    {
      seq(|pktList|, i requires 0 <= i < |pktList| && |at| == |pktList| reads this => Packet(at[i], pktList[i].serial))
    }

    /** The queue as the machine sees it. */
    ghost predicate Matches(d: Dec)
      requires Valid()
      reads this
    {
      d.list == Packets() && d.serial == serial && (d.pc.DAsleep? <==> asleep)
    }

    /** SDL_CondSignal. */
    ghost method Signal()
      modifies this`asleep
      ensures !asleep
    {
      asleep := false;
    }

    method Put(pkt: AvPacket, ghost d: Dec) returns (ret: int)
      requires Valid() && Matches(d)
      modifies this
      ensures Valid() && Matches(Puts(old(abortRequest), d)) && abortRequest == old(abortRequest)
      ensures ret == if abortRequest then -1 else 0
      ensures pktList == if abortRequest then old(pktList) else old(pktList) + [Entry(pkt, old(serial))]
    {
      if abortRequest { return -1; }
      pktList := pktList + [Entry(pkt, serial)];
      at := at + [|d.log|];
      nbPackets := nbPackets + 1;
      size := size + pkt.size + OVERHEAD;
      duration := duration + pkt.duration;
      assert Packets() == old(Packets()) + [Packet(|d.log|, serial)];
      Signal();
      ret := 0;
    }

    method FlushAll(ghost d: Dec)
      requires Valid() && Matches(d)
      modifies this
      ensures Valid() && Matches(Flushes(d)) && abortRequest == old(abortRequest)
      ensures nbPackets == size == duration == 0 && serial == old(serial) + 1
    {
      while pktList != []
        invariant serial == old(serial) && abortRequest == old(abortRequest) && asleep == old(asleep)
        decreases |pktList|
      {
        pktList := pktList[1..];
      }
      at := [];
      nbPackets := 0;
      size := 0;
      duration := 0;
      serial := serial + 1;
    }

    method Abort(ghost d: Dec)
      requires Valid() && Matches(d)
      modifies this`abortRequest, this`asleep
      ensures Valid() && Matches(Woken(d)) && abortRequest && !asleep
    {
      abortRequest := true;
      Signal();
    }

    /** packet_queue_start, while no decoder thread runs. */
    method Open(ghost d: Dec)
      requires Valid() && Matches(d) && !asleep
      modifies this`abortRequest, this`serial
      ensures Valid() && Matches(Opens(d)) && !abortRequest
    {
      abortRequest := false;
      serial := serial + 1;
    }

    /** One round of the loop of packet_queue_get by a thread that is awake: with `block`, the machine's step. */
    method Get(block: bool, ghost d: Dec) returns (got: Got)
      requires Valid() && Matches(d) && !asleep
      modifies this
      ensures Valid() && serial == old(serial) && abortRequest == old(abortRequest)
      ensures block ==> Matches(Gets(abortRequest, d))
      ensures asleep <==> got.Waits?
      ensures got.Aborted? <==> abortRequest
      ensures got.Took? <==> !abortRequest && old(pktList) != []
      ensures got.Waits? || got.Nothing? ==> old(pktList) == [] && (got.Waits? <==> block)
      ensures if got.Took? then old(pktList) == [Entry(got.pkt, got.serial)] + pktList else pktList == old(pktList)
    {
      if abortRequest { return Aborted; }
      if pktList != [] {
        TakeFirst(pktList);
        var e := pktList[0];
        pktList := pktList[1..];
        at := at[1..];
        nbPackets := nbPackets - 1;
        size := size - (e.pkt.size + OVERHEAD);
        duration := duration - e.pkt.duration;
        assert Packets() == old(Packets())[1..];
        return Took(e.pkt, e.serial);
      }
      got := if block then Waits else Nothing;
      asleep := block;
    }
  }

  // ---- FrameQueue ---------------------------------------------------------------------------------------------------

  /** The whole of frame_queue_push and of frame_queue_next on the fields. */
  function Pushes(f: Fields): Fields { f.(windex := Up(f.windex + 1, f.max), size := f.size + 1) }

  function Nexts(f: Fields): Fields
    requires f.rindex < |f.slots|
  {
    if f.keep && f.shown == 0 then f.(shown := 1)
    else f.(slots := f.slots[f.rindex := Empty], rindex := Up(f.rindex + 1, f.max), size := f.size - 1)
  }

  /** Uninterrupted, the machine's push steps do just that. */
  lemma PushInOneGo(s: Ring) returns (p: seq<Ring>)
    requires s.w.WInc? && s.lock == Free
    ensures p != [] && p[0] == s && (forall k :: 0 < k < |p| ==> Push(p[k - 1], p[k]))
    ensures p[|p| - 1].w.WIdle? && p[|p| - 1].f == Pushes(s.f)
  {
    var a := s.(w := WWrap, f := s.f.(windex := s.f.windex + 1));
    var b := a.(w := WPushLock, f := a.f.(windex := Up(a.f.windex, a.f.max)));
    var c := b.(lock := Writer, w := WPushSize);
    var d := c.(w := WPushSignal, f := c.f.(size := c.f.size + 1), pushed := c.pushed + [c.hand]);
    var e := if d.r.RAsleep? then d.(w := WPushUnlock, r := RLock) else d.(w := WPushUnlock);
    p := [s, a, b, c, d, e, e.(lock := Free, w := WIdle)];
  }

  lemma NextInOneGo(s: Ring) returns (p: seq<Ring>)
    requires s.r.RHave? && s.lock == Free && s.f.rindex < |s.f.slots|
    ensures p != [] && p[0] == s && (forall k :: 0 < k < |p| ==> Next(p[k - 1], p[k]))
    ensures p[|p| - 1].r.RIdle? && p[|p| - 1].f == Nexts(s.f)
  {
    if s.f.keep && s.f.shown == 0 { p := [s, s.(r := RIdle, f := s.f.(shown := 1))]; return; }
    var a := s.(r := RUnref);
    var b := a.(r := RInc, f := a.f.(slots := a.f.slots[a.f.rindex := Empty]));
    var c := b.(r := RWrap, f := b.f.(rindex := b.f.rindex + 1), read := b.read + 1);
    var d := c.(r := RNextLock, f := c.f.(rindex := Up(c.f.rindex, c.f.max)));
    var e := d.(lock := Reader, r := RNextSize);
    var g := e.(r := RNextSignal, f := e.f.(size := e.f.size - 1));
    var h := if g.w.WAsleep? then g.(r := RNextUnlock, w := WLock) else g.(r := RNextUnlock);
    p := [s, a, b, c, d, e, g, h, h.(lock := Free, r := RIdle)];
  }

  /** The index k places after `i` in a ring. */
  function After(i: nat, k: nat, max: nat): nat {
    if i + k < max then i + k else if i + k < 2 * max then i + k - max else 0
  }

  /** The `count` slots that follow `skip` others from index `i` on, around the ring. */
  function Window(slots: seq<Slot>, i: nat, skip: nat, count: nat): (r: seq<Slot>)
    requires i < |slots| && skip + count <= |slots|
    ensures |r| == count
    ensures forall k :: 0 <= k < count ==> r[k] == slots[After(i, skip + k, |slots|)]
  {
    seq(count, k requires 0 <= k < count => slots[After(i, skip + k, |slots|)])
  }

  /** Releasing the slot at `i` and moving on drops the first frame of the window and keeps the others. */
  lemma WindowNext(slots: seq<Slot>, i: nat, j: nat, skip: nat, count: nat)
    requires i < |slots| && 0 < count && skip + count <= |slots| && skip <= 1 && j == Up(i + 1, |slots|)
    ensures Window(slots[i := Empty], j, skip, count - 1) == Window(slots, i, skip, count)[1..]
    ensures skip == 1 ==> slots[i := Empty][j] == Window(slots, i, skip, count)[0]
  {
    var before, after := Window(slots, i, skip, count), Window(slots[i := Empty], j, skip, count - 1);
    forall k | 0 <= k < count - 1 ensures after[k] == before[1..][k] {
      assert before[1..][k] == before[k + 1];
    }
  }

  class FrameQueue {
    const queue: array<Slot>
    const maxSize: nat
    const keepLast: bool
    var rindex: nat
    var windex: nat
    var size: nat
    var rindexShown: nat

    constructor (maxSize: nat, keepLast: bool)
      requires maxSize > 0
      ensures fresh(queue) && Valid() && this.keepLast == keepLast && this.maxSize == maxSize && Frames() == []
      ensures View() == Fields(seq(maxSize, _ => Empty), 0, 0, 0, 0, maxSize, keepLast)
    {
      this.maxSize := maxSize;
      this.keepLast := keepLast;
      queue := new Slot[maxSize](_ => Empty);
      rindex, windex, size, rindexShown := 0, 0, 0, 0;
      new;
      assert queue[..] == seq(maxSize, _ => Empty);
    }

    ghost predicate Valid()
      reads this
    {
      && queue.Length == maxSize > 0 && rindex < maxSize && windex < maxSize && size <= maxSize
      && windex == After(rindex, size, maxSize)
      && rindexShown <= 1 && (rindexShown == 1 ==> keepLast && size >= 1)
    }

    ghost function View(): Fields
      reads this, queue
    {
      Fields(queue[..], rindex, windex, size, rindexShown, maxSize, keepLast)
    }

    /** The frames not yet dequeued, oldest first. */
    ghost function Frames(): (r: seq<Slot>)
      requires Valid()
      reads this, queue
      ensures |r| == size - rindexShown
    {
      Window(queue[..], rindex, rindexShown, size - rindexShown)
    }

    method NbRemaining() returns (n: int)
      requires Valid()
      ensures n == |Frames()|
    {
      n := size - rindexShown;
    }

    method Peek() returns (f: Slot)
      requires Valid() && |Frames()| > 0
      ensures f == Frames()[0]
    {
      ModOnce(rindex + rindexShown, maxSize);
      f := queue[(rindex + rindexShown) % maxSize];
    }

    method PeekNext() returns (f: Slot)
      requires Valid() && |Frames()| > 1
      ensures f == Frames()[1]
    {
      ModOnce(rindex + rindexShown + 1, maxSize);
      f := queue[(rindex + rindexShown + 1) % maxSize];
    }

    method PeekLast() returns (f: Slot)
      requires Valid()
      ensures f == if rindexShown == 0 && size > 0 then Frames()[0] else queue[rindex]
    {
      f := queue[rindex];
    }

    /**
     * The slot the decoder fills: filling it disturbs no frame. None when the source waits, or gives up on an abort.
     */
    method PeekWritable(abort: bool) returns (slot: Option<nat>)
      requires Valid()
      ensures slot.None? <==> abort || size >= maxSize
      ensures slot.Some? ==> slot.value == windex
      ensures slot.Some? ==> forall k :: 0 <= k < size ==> After(rindex, k, maxSize) != windex
    {
      if size >= maxSize || abort { return None; }
      slot := Some(windex);
    }

    /** frame_queue_push: the slot filled becomes the newest frame. */
    method PushFrame()
      requires Valid() && size < maxSize
      modifies this`windex, this`size
      ensures Valid() && View() == Pushes(old(View()))
      ensures Frames() == old(Frames()) + [queue[old(windex)]]
    {
      windex := windex + 1;
      if windex == maxSize { windex := 0; }
      size := size + 1;
    }

    /**
     * frame_queue_next: the oldest frame is dequeued; with keep_last it stays at rindex and the one before it is
     * released.
     */
    method NextFrame()
      requires Valid() && |Frames()| > 0
      modifies this`rindex, this`size, this`rindexShown, queue
      ensures Valid() && View() == Nexts(old(View()))
      ensures Frames() == old(Frames())[1..]
      ensures keepLast ==> rindexShown == 1 && queue[rindex] == old(Frames())[0]
    {
      if keepLast && rindexShown == 0 {
        rindexShown := 1;
        assert old(Frames())[0] == queue[rindex];
        assert Frames() == old(Frames())[1..];
        return;
      }
      WindowNext(queue[..], rindex, Up(rindex + 1, maxSize), rindexShown, size - rindexShown);
      hide Window;
      queue[rindex] := Empty;
      rindex := rindex + 1;
      if rindex == maxSize { rindex := 0; }
      size := size - 1;
      assert queue[..] == old(queue[..])[old(rindex) := Empty];
    }
  }
}
