/**
 * The frame queue of fftools/ffplay.c as a machine of one writer (the decoder thread), one reader (the display or audio
 * callback) and one thread that aborts: every read, every write of a field and every lock operation is a step of its
 * own, and the two condition-variable waits are states of their own.
 */
module FfplayRing {
  import opened Basics

  /** A packet is known by its position in the log of its queue and the serial it was put with. */
  datatype Packet = Packet(at: nat, serial: nat)

  /** A decoded frame: the packets it was built from and the serial stamped on it. */
  datatype Frame = Frame(src: set<Packet>, serial: int)

  /** A place of the ring; Torn while its fields are being written. */
  datatype Slot = Empty | Torn | Full(frame: Frame)

  /** The fields of FrameQueue. */
  datatype Fields = Fields(slots: seq<Slot>, rindex: nat, windex: nat, size: int, shown: nat, max: nat, keep: bool)

  /** Where the writer is in frame_queue_peek_writable, the filling of the slot, and frame_queue_push. */
  datatype WriterPc = WIdle | WLock | WTest | WTestAbort | WSleep | WAsleep | WUnlock | WCheckAbort
                    | WFill | WFilling | WInc | WWrap | WPushLock | WPushSize | WPushSignal | WPushUnlock

  /**
   * Where the reader is in frame_queue_peek_readable, in looking at frames (`n` remained when it counted), and in
   * frame_queue_next.
   */
  datatype ReaderPc = RIdle | RLock | RTest | RTestAbort | RSleep | RAsleep | RUnlock | RCheckAbort | RHave(n: int)
                    | RUnref | RInc | RWrap | RNextLock | RNextSize | RNextSignal | RNextUnlock

  /**
   * Where the aborting thread is: ARun while the queue runs, ADone once packet_queue_abort and frame_queue_signal are
   * over.
   */
  datatype AborterPc = ARun | ALock | ASignal | AUnlock | ADone

  datatype Holder = Free | Writer | Reader | Aborter

  /** `hand`: the frame in the slot being filled; `pushed`: all frames pushed; `read`: how many were released. */
  datatype Ring = Ring(f: Fields, lock: Holder, w: WriterPc, r: ReaderPc, a: AborterPc, abort: bool,
                       hand: Frame, pushed: seq<Frame>, read: nat)

  function Up(i: nat, max: nat): nat { if i == max then 0 else i }

  /** SDL_CondSignal: wakes one of the threads asleep on the queue's condition variable, if any. */
  ghost predicate Signal(s: Ring, t: Ring) {
    || (s.w == WAsleep && t == s.(w := WLock))
    || (s.r == RAsleep && t == s.(r := RLock))
    || (s.w != WAsleep && s.r != RAsleep && t == s)
  }

  // ---- the steps -------------------------------------------------------------------------------------------------

  /** frame_queue_peek_writable. */
  ghost predicate PeekWritable(s: Ring, t: Ring) {
    match s.w
    case WIdle => t == s.(w := WLock)
    case WLock => s.lock == Free && t == s.(lock := Writer, w := WTest)
    case WTest => t == s.(w := if s.f.size >= s.f.max then WTestAbort else WUnlock)
    case WTestAbort => t == s.(w := if s.abort then WUnlock else WSleep)
    case WSleep => t == s.(lock := Free, w := WAsleep)
    case WAsleep => t == s.(w := WLock) // a wakeup without a signal
    case WUnlock => t == s.(lock := Free, w := WCheckAbort)
    case WCheckAbort => t == s.(w := if s.abort then WIdle else WFill)
    case _ => false
  }

  /** The writer fills its slot, or leaves it, as the subtitle decoder does with a frame it has no use for. */
  ghost predicate FillSlot(s: Ring, t: Ring) {
    match s.w
    case WFill => s.f.windex < |s.f.slots| && t == s.(w := WFilling, f := s.f.(slots := s.f.slots[s.f.windex := Torn]))
    case WFilling =>
      || t == s.(w := WIdle)
      || (s.f.windex < |s.f.slots| &&
          t == s.(w := WInc, hand := t.hand, f := s.f.(slots := s.f.slots[s.f.windex := Full(t.hand)])))
    case _ => false
  }

  /** frame_queue_push. */
  ghost predicate Push(s: Ring, t: Ring) {
    match s.w
    case WInc => t == s.(w := WWrap, f := s.f.(windex := s.f.windex + 1))
    case WWrap => t == s.(w := WPushLock, f := s.f.(windex := Up(s.f.windex, s.f.max)))
    case WPushLock => s.lock == Free && t == s.(lock := Writer, w := WPushSize)
    case WPushSize => t == s.(w := WPushSignal, f := s.f.(size := s.f.size + 1), pushed := s.pushed + [s.hand])
    case WPushSignal => Signal(s.(w := WPushUnlock), t)
    case WPushUnlock => t == s.(lock := Free, w := WIdle)
    case _ => false
  }

  /** frame_queue_peek_readable. */
  ghost predicate PeekReadable(s: Ring, t: Ring) {
    match s.r
    case RIdle => t == s.(r := RLock)
    case RLock => s.lock == Free && t == s.(lock := Reader, r := RTest)
    case RTest => t == s.(r := if s.f.size - s.f.shown <= 0 then RTestAbort else RUnlock)
    case RTestAbort => t == s.(r := if s.abort then RUnlock else RSleep)
    case RSleep => t == s.(lock := Free, r := RAsleep)
    case RAsleep => t == s.(r := RLock)
    case RUnlock => t == s.(lock := Free, r := RCheckAbort)
    case RCheckAbort => t == s.(r := if s.abort then RIdle else RHave(1))
    case _ => false
  }

  /** frame_queue_nb_remaining outside the lock, and leaving without dequeuing. */
  ghost predicate Look(s: Ring, t: Ring) {
    && (s.r == RIdle || s.r.RHave?)
    && (t == s.(r := if s.f.size - s.f.shown > 0 then RHave(s.f.size - s.f.shown) else RIdle) || t == s.(r := RIdle))
  }

  /** frame_queue_next. */
  ghost predicate Next(s: Ring, t: Ring) {
    match s.r
    case RHave(_) => t == if s.f.keep && s.f.shown == 0 then s.(r := RIdle, f := s.f.(shown := 1)) else s.(r := RUnref)
    case RUnref => s.f.rindex < |s.f.slots| && t == s.(r := RInc, f := s.f.(slots := s.f.slots[s.f.rindex := Empty]))
    case RInc => t == s.(r := RWrap, f := s.f.(rindex := s.f.rindex + 1), read := s.read + 1)
    case RWrap => t == s.(r := RNextLock, f := s.f.(rindex := Up(s.f.rindex, s.f.max)))
    case RNextLock => s.lock == Free && t == s.(lock := Reader, r := RNextSize)
    case RNextSize => t == s.(r := RNextSignal, f := s.f.(size := s.f.size - 1))
    case RNextSignal => Signal(s.(r := RNextUnlock), t)
    case RNextUnlock => t == s.(lock := Free, r := RIdle)
    case _ => false
  }

  predicate InPeekReadable(r: ReaderPc) {
    r.RLock? || r.RTest? || r.RTestAbort? || r.RSleep? || r.RAsleep? || r.RUnlock? || r.RCheckAbort?
  }

  /**
   * packet_queue_abort sets the flag; frame_queue_signal follows; a restart clears the flag once the decoder thread has
   * been joined, and the audio device with it, so that no thread is inside a blocking peek.
   */
  ghost predicate Abort(s: Ring, t: Ring) {
    match s.a
    case ARun => t == s.(abort := true, a := ALock)
    case ALock => s.lock == Free && t == s.(lock := Aborter, a := ASignal)
    case ASignal => Signal(s.(a := AUnlock), t)
    case AUnlock => t == s.(lock := Free, a := ADone)
    case ADone => s.w == WIdle && !InPeekReadable(s.r) && t == s.(abort := false, a := ARun)
  }

  ghost predicate WriterNext(s: Ring, t: Ring) { PeekWritable(s, t) || FillSlot(s, t) || Push(s, t) }

  ghost predicate ReaderNext(s: Ring, t: Ring) { PeekReadable(s, t) || Look(s, t) || Next(s, t) }

  ghost predicate RingNext(s: Ring, t: Ring) { WriterNext(s, t) || ReaderNext(s, t) || Abort(s, t) }

  /** A keep_last queue has a slot besides the one of the frame it keeps. */
  predicate RoomBesidesKept(f: Fields) { f.max >= 2 || !f.keep }

  /** frame_queue_init; the packet queue starts aborted. */
  ghost predicate Initialised(s: Ring) {
    && 1 <= s.f.max == |s.f.slots|
    && s.f == Fields(seq(s.f.max, _ => Empty), 0, 0, 0, 0, s.f.max, s.f.keep)
    && s.lock == Free && s.w == WIdle && s.r == RIdle && s.a == ADone && s.abort && s.pushed == [] && s.read == 0
  }

  ghost predicate RingInit(s: Ring) { Initialised(s) && RoomBesidesKept(s.f) }

  // ---- positions ----------------------------------------------------------------------------------------------------

  /** The slot of the i-th frame ever pushed. */
  function Place(i: nat, max: nat): (p: nat)
    requires max > 0
    ensures p < max
  {
    if i == 0 then 0 else Up(Place(i - 1, max) + 1, max)
  }

  lemma {:induction false} PlaceAhead(i: nat, k: nat, max: nat)
    requires k < max
    ensures Place(i + k, max) == if Place(i, max) + k < max then Place(i, max) + k else Place(i, max) + k - max
  {
    if k > 0 { PlaceAhead(i, k - 1, max); }
  }

  lemma PlacesApart(i: nat, j: nat, max: nat)
    requires i < j < i + max
    ensures Place(i, max) != Place(j, max)
  {
    PlaceAhead(i, j - i, max);
  }

  lemma ModOnce(x: nat, max: nat)
    requires 0 < max && x < 2 * max
    ensures x % max == if x < max then x else x - max
  {
    if x >= max {
      var q := x / max;
      assert x == q * max + x % max;
      assert q >= 2 ==> q * max >= 2 * max;
      assert q <= 0 ==> q * max <= 0;
    }
  }

  /** (rindex + k) % max_size is the slot of the k-th frame after the one at rindex. */
  lemma PeekIndex(i: nat, k: nat, max: nat)
    requires k < max
    ensures (Place(i, max) + k) % max == Place(i + k, max)
  {
    PlaceAhead(i, k, max);
    ModOnce(Place(i, max) + k, max);
  }

  // ---- the invariant ------------------------------------------------------------------------------------------------

  predicate WriterLocked(w: WriterPc) {
    w.WTest? || w.WTestAbort? || w.WSleep? || w.WUnlock? || w.WPushSize? || w.WPushSignal? || w.WPushUnlock?
  }

  predicate ReaderLocked(r: ReaderPc) {
    r.RTest? || r.RTestAbort? || r.RSleep? || r.RUnlock? || r.RNextSize? || r.RNextSignal? || r.RNextUnlock?
  }

  /** Who holds the lock is exactly who is inside a locked section. */
  ghost predicate Locks(s: Ring) {
    && (s.lock == Writer <==> WriterLocked(s.w))
    && (s.lock == Reader <==> ReaderLocked(s.r))
    && (s.lock == Aborter <==> s.a.ASignal? || s.a.AUnlock?)
    && (s.abort <==> s.a != ARun)
  }

  /** The new frame is in its slot and not yet counted. */
  predicate Filled(w: WriterPc) { w.WInc? || w.WWrap? || w.WPushLock? || w.WPushSize? }

  /** The writer has a slot. */
  predicate HasRoom(w: WriterPc) { w.WFill? || w.WFilling? || Filled(w) }

  function Lag(r: ReaderPc): int { if r.RWrap? || r.RNextLock? || r.RNextSize? then 1 else 0 }

  /** `size` counts the frames pushed and not yet released, give or take the release under way. */
  ghost predicate Counts(s: Ring) {
    && 1 <= s.f.max == |s.f.slots| && RoomBesidesKept(s.f) && s.f.shown <= 1 && (s.f.shown == 1 ==> s.f.keep)
    && (s.f.keep && s.f.shown == 0 ==> s.read == 0)
    && s.read <= |s.pushed| && s.f.size == |s.pushed| - s.read + Lag(s.r)
    && s.f.shown <= |s.pushed| - s.read && s.f.size <= s.f.max
    && (HasRoom(s.w) ==> s.f.size < s.f.max)
    && (s.w.WUnlock? || s.w.WCheckAbort? ==> s.f.size < s.f.max || s.abort)
    && (s.r.RUnlock? || s.r.RCheckAbort? ==> s.f.size - s.f.shown >= 1 || s.abort)
    && (s.r.RHave? ==> 1 <= s.r.n <= s.f.size - s.f.shown)
    && (s.r.RUnref? || s.r.RInc? ==> s.f.size - s.f.shown >= 1 && (s.f.keep ==> s.f.shown == 1))
  }

  /**
   * Why a thread may sleep: its condition still fails, or the signal it waits for is the very next step of the lock
   * holder.
   */
  ghost predicate Waits(s: Ring) {
    && (s.w.WTestAbort? || s.w.WSleep? ==> s.f.size >= s.f.max)
    && (s.w.WAsleep? ==> s.f.size >= s.f.max || s.r.RNextSignal?)
    && (s.r.RTestAbort? || s.r.RSleep? ==> s.f.size - s.f.shown <= 0)
    && (s.r.RAsleep? ==> s.f.size - s.f.shown <= 0 || s.w.WPushSignal?)
    && (s.a.AUnlock? || s.a.ADone? ==> !s.w.WSleep? && !s.w.WAsleep? && !s.r.RSleep? && !s.r.RAsleep?)
  }

  /** The part of the invariant that needs no contents. */
  ghost predicate Order(s: Ring) { Locks(s) && Counts(s) && Waits(s) }

  ghost predicate Indices(s: Ring)
    requires s.f.max > 0
  {
    && s.f.windex == (if s.w.WWrap? then Place(|s.pushed|, s.f.max) + 1
                      else if s.w.WPushLock? || s.w.WPushSize? then Place(|s.pushed| + 1, s.f.max)
                      else Place(|s.pushed|, s.f.max))
    && (s.r.RWrap? ==> s.read > 0)
    && s.f.rindex == (if s.r.RWrap? then Place(s.read - 1, s.f.max) + 1 else Place(s.read, s.f.max))
  }

  ghost predicate Holds(s: Ring, i: nat)
    requires 0 < s.f.max == |s.f.slots| && i < |s.pushed|
  {
    s.f.slots[Place(i, s.f.max)] == Full(s.pushed[i])
  }

  /** The first frame the ring still holds in full. */
  function Oldest(s: Ring): nat { s.read + if s.r.RInc? then 1 else 0 }

  /**
   * Every frame pushed and not released is still in its slot as it was pushed, and so is the one about to be counted.
   */
  ghost predicate Contents(s: Ring)
    requires 0 < s.f.max == |s.f.slots|
  {
    && (forall i :: Oldest(s) <= i < |s.pushed| ==> Holds(s, i))
    && (Filled(s.w) ==> s.f.slots[Place(|s.pushed|, s.f.max)] == Full(s.hand))
  }

  ghost predicate RingInv(s: Ring) { Order(s) && Indices(s) && Contents(s) }

  lemma InitInv(s: Ring)
    requires RingInit(s)
    ensures RingInv(s)
  {
  }

  lemma PeekWritableOrder(s: Ring, t: Ring)
    requires Order(s) && PeekWritable(s, t) && !WriterLocked(s.w)
    ensures Order(t)
  {
  }

  lemma PeekWritableLockedOrder(s: Ring, t: Ring)
    requires Order(s) && PeekWritable(s, t) && WriterLocked(s.w)
    ensures Order(t)
  {
  }

  lemma FillSlotOrder(s: Ring, t: Ring)
    requires Order(s) && FillSlot(s, t)
    ensures Order(t)
  {
  }

  lemma PushOrder(s: Ring, t: Ring)
    requires Order(s) && Push(s, t) && !WriterLocked(s.w)
    ensures Order(t)
  {
  }

  lemma PushLockedOrder(s: Ring, t: Ring)
    requires Order(s) && Push(s, t) && WriterLocked(s.w)
    ensures Order(t)
  {
  }

  lemma PeekReadableOrder(s: Ring, t: Ring)
    requires Order(s) && PeekReadable(s, t) && !ReaderLocked(s.r)
    ensures Order(t)
  {
  }

  lemma PeekReadableLockedOrder(s: Ring, t: Ring)
    requires Order(s) && PeekReadable(s, t) && ReaderLocked(s.r)
    ensures Order(t)
  {
  }

  lemma LookOrder(s: Ring, t: Ring)
    requires Order(s) && Look(s, t)
    ensures Order(t)
  {
  }

  lemma NextOrder(s: Ring, t: Ring)
    requires Order(s) && Next(s, t) && !ReaderLocked(s.r)
    ensures Order(t)
  {
  }

  lemma NextLockedOrder(s: Ring, t: Ring)
    requires Order(s) && Next(s, t) && ReaderLocked(s.r)
    ensures Order(t)
  {
  }

  lemma AbortOrder(s: Ring, t: Ring)
    requires Order(s) && Abort(s, t)
    ensures Order(t)
  {
  }

  lemma OrderKept(s: Ring, t: Ring)
    requires Order(s) && RingNext(s, t)
    ensures Order(t)
  {
    hide Order;
    if PeekWritable(s, t) { if WriterLocked(s.w) { PeekWritableLockedOrder(s, t); } else { PeekWritableOrder(s, t); } }
    else if FillSlot(s, t) { FillSlotOrder(s, t); }
    else if Push(s, t) { if WriterLocked(s.w) { PushLockedOrder(s, t); } else { PushOrder(s, t); } }
    else if PeekReadable(s, t) {
      if ReaderLocked(s.r) { PeekReadableLockedOrder(s, t); } else { PeekReadableOrder(s, t); }
    }
    else if Look(s, t) { LookOrder(s, t); }
    else if Next(s, t) { if ReaderLocked(s.r) { NextLockedOrder(s, t); } else { NextOrder(s, t); } }
    else { AbortOrder(s, t); }
  }

  // ---- positions and contents ---------------------------------------------------------------------------------------

  /** A step that moves no frame and no index: locking, waiting, looking, aborting. */
  ghost predicate Quiet(s: Ring, t: Ring) {
    && t.f == s.f && t.pushed == s.pushed && t.read == s.read
    && (t.w == s.w || (!Filled(t.w) && !Filled(s.w)))
    && (t.r == s.r || (!t.r.RInc? && !s.r.RInc? && !t.r.RWrap? && !s.r.RWrap?))
    && (Filled(s.w) ==> t.hand == s.hand)
  }

  lemma QuietSteps(s: Ring, t: Ring)
    requires PeekWritable(s, t) || PeekReadable(s, t) || Look(s, t) || Abort(s, t)
    ensures Quiet(s, t)
  {
  }

  lemma QuietKeeps(s: Ring, t: Ring)
    requires 1 <= s.f.max == |s.f.slots| && Indices(s) && Contents(s) && Quiet(s, t)
    ensures Indices(t) && Contents(t)
  {
    hide Place;
    forall i | Oldest(t) <= i < |t.pushed| ensures Holds(t, i) { assert Holds(s, i); }
  }

  /** Filling the writer's slot spares every frame the ring holds. */
  lemma FillKeeps(s: Ring, t: Ring)
    requires RingInv(s) && FillSlot(s, t)
    ensures t.f.max == s.f.max && |t.f.slots| == |s.f.slots| && Indices(t) && Contents(t)
  {
    hide Locks, Waits, Place;
    forall i | Oldest(t) <= i < |t.pushed| ensures Holds(t, i) {
      assert Holds(s, i);
      PlacesApart(i, |s.pushed|, s.f.max);
    }
  }

  lemma PushIndices(s: Ring, t: Ring)
    requires RingInv(s) && Push(s, t)
    ensures t.f.max == s.f.max && |t.f.slots| == |s.f.slots| && Indices(t)
  {
    hide Locks, Waits, Place, Contents;
    PlaceStep(|s.pushed|, s.f.max);
  }

  lemma PushKeeps(s: Ring, t: Ring)
    requires RingInv(s) && Push(s, t)
    ensures t.f.max == s.f.max && |t.f.slots| == |s.f.slots| && Indices(t) && Contents(t)
  {
    PushIndices(s, t);
    hide Locks, Waits, Place, Indices;
    forall i | Oldest(t) <= i < |t.pushed| ensures Holds(t, i) {
      if i < |s.pushed| { assert Holds(s, i); }
    }
  }

  lemma PlaceStep(i: nat, max: nat)
    requires max > 0
    ensures Place(i + 1, max) == Up(Place(i, max) + 1, max)
  {
  }

  /** Releasing the oldest frame spares the others, and the slot being filled. */
  lemma UnrefKeeps(s: Ring, t: Ring)
    requires RingInv(s) && Next(s, t) && s.r.RUnref?
    ensures t.f.max == s.f.max && |t.f.slots| == |s.f.slots| && Indices(t) && Contents(t)
  {
    hide Locks, Waits, Place;
    forall i | Oldest(t) <= i < |t.pushed| ensures Holds(t, i) {
      assert Holds(s, i);
      PlacesApart(s.read, i, s.f.max);
    }
    if HasRoom(s.w) { PlacesApart(s.read, |s.pushed|, s.f.max); }
  }

  lemma NextIndices(s: Ring, t: Ring)
    requires RingInv(s) && Next(s, t) && !s.r.RUnref?
    ensures t.f.max == s.f.max && |t.f.slots| == |s.f.slots| && Indices(t)
  {
    hide Locks, Waits, Place, Contents;
    PlaceStep(s.read, s.f.max);
    if s.read > 0 { PlaceStep(s.read - 1, s.f.max); }
  }

  lemma NextKeeps(s: Ring, t: Ring)
    requires RingInv(s) && Next(s, t) && !s.r.RUnref?
    ensures t.f.max == s.f.max && |t.f.slots| == |s.f.slots| && Indices(t) && Contents(t)
  {
    NextIndices(s, t);
    hide Locks, Waits, Place, Indices;
    forall i | Oldest(t) <= i < |t.pushed| ensures Holds(t, i) { assert Holds(s, i); }
  }

  lemma RingInvKept(s: Ring, t: Ring)
    requires RingInv(s) && RingNext(s, t)
    ensures RingInv(t)
  {
    OrderKept(s, t);
    hide Indices, Contents, Locks, Waits, PeekWritable, FillSlot, Push, PeekReadable, Look, Next, Abort;
    if FillSlot(s, t) { FillKeeps(s, t); }
    else if Push(s, t) { PushKeeps(s, t); }
    else if Next(s, t) { if s.r.RUnref? { UnrefKeeps(s, t); } else { NextKeeps(s, t); } }
    else { QuietSteps(s, t); QuietKeeps(s, t); }
  }

  // ---- every run ----------------------------------------------------------------------------------------------------

  /** A run from an initialised queue, one step of one thread at a time, in any interleaving. */
  ghost predicate Run(p: seq<Ring>) {
    p != [] && RingInit(p[0]) && forall k :: 0 < k < |p| ==> RingNext(p[k - 1], p[k])
  }

  lemma {:induction false} RunInv(p: seq<Ring>, k: nat)
    requires Run(p) && k < |p|
    ensures RingInv(p[k])
  {
    if k == 0 {
      InitInv(p[0]);
    } else {
      RunInv(p, k - 1);
      RingInvKept(p[k - 1], p[k]);
    }
  }

  /**
   * The slots the reader may look at: the one of frame_queue_peek while it knows one frame remains, of
   * frame_queue_peek_next while it knows two do, of frame_queue_peek_last once a frame was shown, and the one it is
   * releasing.
   */
  ghost predicate Looks(s: Ring, k: nat)
    requires s.f.max > 0
  {
    || (s.r.RHave? && k == (s.f.rindex + s.f.shown) % s.f.max)
    || (s.r.RHave? && s.r.n > 1 && k == (s.f.rindex + s.f.shown + 1) % s.f.max)
    || (s.f.shown == 1 && !s.r.RInc? && !s.r.RWrap? && k == s.f.rindex)
    || (s.r.RUnref? && k == s.f.rindex)
  }

  /** The slot the writer was given. */
  function WriterSlot(s: Ring): nat
    requires s.f.max > 0
  {
    Place(|s.pushed|, s.f.max)
  }

  /** How many frames the reader has dequeued. */
  function Taken(s: Ring): nat { s.read + s.f.shown }

  /** A looked-at slot is that of a frame the ring still holds, counted from the oldest. */
  lemma LooksAt(s: Ring, k: nat) returns (i: nat)
    requires RingInv(s) && Looks(s, k)
    ensures s.read <= i < |s.pushed| && k == Place(i, s.f.max) && i < s.read + s.f.max
    ensures Holds(s, i)
    ensures s.r.RHave? && k == (s.f.rindex + s.f.shown) % s.f.max ==> i == Taken(s)
  {
    hide Locks, Waits, Place;
    PeekIndex(s.read, 0, s.f.max);
    PeekIndex(s.read, s.f.shown, s.f.max);
    if s.r.RHave? && k == (s.f.rindex + s.f.shown) % s.f.max {
      i := Taken(s);
    } else if s.r.RHave? && s.r.n > 1 && k == (s.f.rindex + s.f.shown + 1) % s.f.max {
      PeekIndex(s.read, s.f.shown + 1, s.f.max);
      i := Taken(s) + 1;
    } else {
      i := s.read;
    }
    assert Holds(s, i);
  }

  /** In no interleaving is the slot being filled one the reader may look at. */
  lemma WriterAlone(p: seq<Ring>, n: nat, k: nat)
    requires Run(p) && n < |p| && HasRoom(p[n].w) && p[n].f.max > 0 && Looks(p[n], k)
    ensures k != WriterSlot(p[n])
    ensures p[n].w.WFill? || p[n].w.WFilling? ==> WriterSlot(p[n]) == p[n].f.windex
  {
    RunInv(p, n);
    var i := LooksAt(p[n], k);
    hide Place;
    PlacesApart(i, |p[n].pushed|, p[n].f.max);
  }

  /**
   * What the reader sees is what was pushed, in the order of the pushes: next is frame number Taken, after it Taken +
   * 1.
   */
  lemma ReadsInOrder(p: seq<Ring>, n: nat)
    requires Run(p) && n < |p| && p[n].r.RHave?
    ensures var s := p[n];
            && 0 < s.f.max == |s.f.slots| && Taken(s) < |s.pushed|
            && s.f.slots[(s.f.rindex + s.f.shown) % s.f.max] == Full(s.pushed[Taken(s)])
            && (s.r.n > 1 ==> Taken(s) + 1 < |s.pushed|
                              && s.f.slots[(s.f.rindex + s.f.shown + 1) % s.f.max] == Full(s.pushed[Taken(s) + 1]))
            && (s.f.shown == 1 ==> s.f.rindex < s.f.max && s.f.slots[s.f.rindex] == Full(s.pushed[s.read]))
  {
    RunInv(p, n);
    var s := p[n];
    hide Locks, Waits, Place;
    PeekIndex(s.read, 0, s.f.max);
    PeekIndex(s.read, s.f.shown, s.f.max);
    assert Holds(s, Taken(s));
    assert s.f.shown == 1 ==> Holds(s, s.read);
    if s.r.n > 1 {
      PeekIndex(s.read, s.f.shown + 1, s.f.max);
      assert Holds(s, Taken(s) + 1);
    }
  }

  /** Only the writer pushes, one frame at a time, and it never dequeues; the aborting thread does neither. */
  lemma PushesOne(s: Ring, t: Ring)
    requires WriterNext(s, t) || Abort(s, t)
    ensures t.pushed == if s.w.WPushSize? && WriterNext(s, t) then s.pushed + [s.hand] else s.pushed
    ensures Taken(t) == Taken(s)
  {
  }

  /**
   * Each frame_queue_next dequeues exactly one frame, by showing it or by releasing the one before; nothing else
   * dequeues.
   */
  lemma DequeuesOne(s: Ring, t: Ring)
    requires Order(s) && ReaderNext(s, t)
    ensures t.pushed == s.pushed
    ensures Taken(t) == Taken(s) + One((s.r.RHave? && t.f.shown > s.f.shown) || (s.r.RInc? && t.r.RWrap?))
    ensures s.r.RHave? && (t.r.RUnref? || t.f.shown > s.f.shown) ==> (t.r.RUnref? <==> !s.f.keep || s.f.shown == 1)
  {
    hide Locks, Waits;
  }

  lemma Steady(s: Ring, t: Ring)
    requires RingNext(s, t)
    ensures t.f.max == s.f.max && t.f.keep == s.f.keep
  {
  }

  lemma {:induction false} PushedGrows(p: seq<Ring>, a: nat, b: nat)
    requires Run(p) && a <= b < |p|
    ensures p[a].pushed <= p[b].pushed && p[a].f.max == p[b].f.max && p[a].f.keep == p[b].f.keep
    ensures Taken(p[a]) <= Taken(p[b])
    decreases b - a
  {
    hide WriterNext, ReaderNext, Abort, RingInit, Counts, Locks, Waits, Indices, Contents;
    if a < b {
      PushedGrows(p, a, b - 1);
      RunInv(p, b - 1);
      if ReaderNext(p[b - 1], p[b]) { DequeuesOne(p[b - 1], p[b]); } else { PushesOne(p[b - 1], p[b]); }
      Steady(p[b - 1], p[b]);
    }
  }

  /**
   * On a keep_last queue a frame peeked at before frame_queue_next is still in its slot, untouched, at every later
   * moment until the following frame_queue_next releases it.
   */
  lemma KeptUntilFollowingNext(p: seq<Ring>, a: nat, b: nat)
    requires Run(p) && a <= b < |p| && p[a].f.keep && p[a].r.RHave?
    requires Taken(p[b]) <= Taken(p[a]) + 1
    requires p[b].r.RInc? ==> Taken(p[b]) <= Taken(p[a])
    ensures p[a].f.max > 0
    ensures var k := (p[a].f.rindex + p[a].f.shown) % p[a].f.max;
            k < |p[a].f.slots| == |p[b].f.slots| && p[a].f.slots[k].Full? && p[b].f.slots[k] == p[a].f.slots[k]
  {
    RunInv(p, b);
    PushedGrows(p, a, b);
    RunInv(p, a);
    ReadsInOrder(p, a);
    hide Locks, Waits, Place, RingNext, RingInit;
    PeekIndex(p[a].read, p[a].f.shown, p[a].f.max);
    var i := Taken(p[a]);
    assert p[b].pushed[i] == p[a].pushed[i];
    assert Holds(p[b], i);
  }

  /** Writer and reader never sleep at the same time, and a sleeper's condition holds up to the very next signal. */
  lemma NeverBothAsleep(p: seq<Ring>, n: nat)
    requires Run(p) && n < |p|
    ensures !(p[n].w.WAsleep? && p[n].r.RAsleep?)
    ensures p[n].w.WAsleep? ==> p[n].f.size >= p[n].f.max || p[n].r.RNextSignal?
    ensures p[n].r.RAsleep? ==> p[n].f.size - p[n].f.shown <= 0 || p[n].w.WPushSignal?
  {
    hide Place, Indices, Contents;
    RunInv(p, n);
  }

  /**
   * Once the flag is set and the one signal of frame_queue_signal has been given, nobody sleeps on the queue or is
   * about to.
   */
  lemma AbortWakesAll(p: seq<Ring>, n: nat)
    requires Run(p) && n < |p| && (p[n].a.AUnlock? || p[n].a.ADone?)
    ensures p[n].abort && !p[n].w.WAsleep? && !p[n].w.WSleep? && !p[n].r.RAsleep? && !p[n].r.RSleep?
  {
    hide Place, Indices, Contents;
    RunInv(p, n);
  }

  // ---- queues of any size -------------------------------------------------------------------------------------------

  ghost predicate Path(p: seq<Ring>) {
    p != [] && forall k :: 0 < k < |p| ==> RingNext(p[k - 1], p[k])
  }

  /** From an initialised queue of this size some interleaving puts writer and reader to sleep together. */
  ghost predicate CanDeadlock(max: nat, keep: bool) {
    exists p: seq<Ring> :: DeadEnd(p, max, keep)
  }

  ghost predicate DeadEnd(p: seq<Ring>, max: nat, keep: bool) {
    && Path(p) && Initialised(p[0]) && p[0].f.max == max && p[0].f.keep == keep
    && p[|p| - 1].w.WAsleep? && p[|p| - 1].r.RAsleep?
  }

  lemma PathJoin(p: seq<Ring>, q: seq<Ring>)
    requires Path(p) && Path(q) && p[|p| - 1] == q[0]
    ensures Path(p + q[1..]) && (p + q[1..])[0] == p[0] && (p + q[1..])[|p + q[1..]| - 1] == q[|q| - 1]
  {
    hide RingNext;
    var r := p + q[1..];
    forall k | 0 < k < |r| ensures RingNext(r[k - 1], r[k]) {
      if k == |p| { assert r[k - 1] == q[0] && r[k] == q[1]; }
      else if k > |p| { assert r[k - 1] == q[k - |p|] && r[k] == q[k - |p| + 1]; }
    }
  }

  /** A one-slot queue: the writer gets its slot. */
  lemma OneSlotFill(s: Ring, frame: Frame) returns (p: seq<Ring>)
    requires s.f.max == |s.f.slots| == 1 && s.f.size == 0 && s.f.windex == 0 && !s.abort && s.lock == Free
    requires s.w == WIdle
    ensures Path(p) && p[0] == s
    ensures p[|p| - 1] == s.(w := WInc, hand := frame, f := s.f.(slots := [Full(frame)]))
  {
    var a := s.(w := WLock);
    var b := s.(w := WTest, lock := Writer);
    var c := s.(w := WUnlock, lock := Writer);
    var d := s.(w := WCheckAbort);
    var e := s.(w := WFill);
    var g := s.(w := WFilling, f := s.f.(slots := s.f.slots[0 := Torn]));
    var h := s.(w := WInc, hand := frame, f := s.f.(slots := s.f.slots[0 := Torn][0 := Full(frame)]));
    p := [s, a, b, c, d, e, g, h];
    assert PeekWritable(s, a) && PeekWritable(a, b) && PeekWritable(b, c) && PeekWritable(c, d) && PeekWritable(d, e);
    assert FillSlot(e, g) && FillSlot(g, h);
    assert h.f.slots == [Full(frame)];
  }

  /** It pushes the frame. */
  lemma OneSlotPush(s: Ring) returns (p: seq<Ring>)
    requires s.f.max == 1 && s.f.windex == 0 && s.lock == Free && s.w == WInc && s.r == RIdle
    ensures Path(p) && p[0] == s
    ensures p[|p| - 1] == s.(w := WIdle, f := s.f.(size := s.f.size + 1), pushed := s.pushed + [s.hand])
  {
    hide PeekWritable, FillSlot, ReaderNext, Abort;
    var a := s.(w := WWrap, f := s.f.(windex := 1));
    var b := s.(w := WPushLock);
    var c := s.(w := WPushSize, lock := Writer);
    var t := s.(w := WIdle, f := s.f.(size := s.f.size + 1), pushed := s.pushed + [s.hand]);
    var d := t.(w := WPushSignal, lock := Writer);
    var e := t.(w := WPushUnlock, lock := Writer);
    p := [s, a, b, c, d, e, t];
    assert Push(s, a) && Push(a, b) && Push(b, c);
    assert Push(c, d) && Push(d, e) && Push(e, t);
    hide Push;
    assert Path(p);
  }

  /**
   * The reader shows the frame, which stays in the slot; the writer waits for room and the reader for another frame.
   */
  lemma OneSlotSleep(s: Ring) returns (p: seq<Ring>)
    requires s.f.max == 1 && s.f.size == 1 && s.f.shown == 0 && s.f.keep && !s.abort && s.lock == Free && s.w == WIdle
    requires s.r == RIdle
    ensures Path(p) && p[0] == s && p[|p| - 1].w.WAsleep? && p[|p| - 1].r.RAsleep?
  {
    var a := s.(r := RHave(1));
    var b := s.(f := s.f.(shown := 1));
    var c := b.(w := WLock);
    var d := b.(w := WTest, lock := Writer);
    var e := b.(w := WTestAbort, lock := Writer);
    var f := b.(w := WSleep, lock := Writer);
    var g := b.(w := WAsleep);
    var h := g.(r := RLock);
    var i := g.(r := RTest, lock := Reader);
    var j := g.(r := RTestAbort, lock := Reader);
    var k := g.(r := RSleep, lock := Reader);
    var l := g.(r := RAsleep);
    assert Look(s, a) && Next(a, b);
    assert PeekWritable(b, c) && PeekWritable(c, d) && PeekWritable(d, e) && PeekWritable(e, f) && PeekWritable(f, g);
    assert PeekReadable(g, h) && PeekReadable(h, i) && PeekReadable(i, j) && PeekReadable(j, k) && PeekReadable(k, l);
    p := [s, a, b, c, d, e, f, g, h, i, j, k, l];
  }

  lemma OneSlotDeadlocks()
    ensures CanDeadlock(1, true)
  {
    var frame := Frame({}, 0);
    var s := Ring(Fields([Empty], 0, 0, 0, 0, 1, true), Free, WIdle, RIdle, ADone, true, frame, [], 0);
    var run := s.(abort := false, a := ARun);
    assert s.f == Fields(seq(s.f.max, _ => Empty), 0, 0, 0, 0, s.f.max, s.f.keep);
    assert Abort(s, run);
    hide PeekWritable, FillSlot, Push, PeekReadable, Look, Next, Abort, Path;
    StepPath(s, run);
    var filled := OneSlotFill(run, frame);
    PathJoin([s, run], filled);
    var p := [s, run] + filled[1..];
    var pushed := OneSlotPush(p[|p| - 1]);
    PathJoin(p, pushed);
    var q := p + pushed[1..];
    var asleep := OneSlotSleep(q[|q| - 1]);
    PathJoin(q, asleep);
    assert DeadEnd(q + asleep[1..], 1, true);
  }

  lemma StepPath(s: Ring, t: Ring)
    requires RingNext(s, t)
    ensures Path([s, t])
  {
  }

  /** Writer and reader can end up asleep together in a queue of one slot with keep_last, and in no other. */
  lemma DeadlocksIff(max: nat, keep: bool)
    ensures CanDeadlock(max, keep) <==> max == 1 && keep
  {
    hide RingNext;
    if max == 1 && keep { OneSlotDeadlocks(); }
    if CanDeadlock(max, keep) {
      var p: seq<Ring> :| DeadEnd(p, max, keep);
      if RoomBesidesKept(p[0].f) { NeverBothAsleep(p, |p| - 1); }
    }
  }
}
