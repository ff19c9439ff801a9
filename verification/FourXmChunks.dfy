/**
 * The `cfrm` branch of decode_frame in libavcodec/4xm.c: 100 slots that collect the chunks of interleaved frames,
 * refining a map from frame id to the bytes received so far.
 */
module FourXmChunks {
  import opened Basics

  const SLOTS: nat := 100
  const UINT_MAX: nat := 0xFFFF_FFFF

  // ---- what the slots stand for -------------------------------------------------------------------------

  datatype Chunk = Chunk(id: int, whole: int, payload: seq<Byte>)

  /** Bytes collected so far by frame id; an absent id has none. */
  type Partial = map<int, seq<Byte>>

  function Get(m: Partial, id: int): seq<Byte> {
    if id in m then m[id] else []
  }

  /** The buffer size computation would wrap around. */
  predicate TooLarge(have: seq<Byte>, c: Chunk) {
    |c.payload| > UINT_MAX - |have| - PADDING
  }

  /** A chunk the decoder looks at: not one with a negative total size. */
  predicate Accepted(have: seq<Byte>, c: Chunk) {
    c.whole >= 0 && !TooLarge(have, c)
  }

  predicate Completes(have: seq<Byte>, c: Chunk) {
    Accepted(have, c) && |have| + |c.payload| >= c.whole
  }

  /** What is left of a frame's bytes after a chunk of that frame. */
  function Left(have: seq<Byte>, c: Chunk): seq<Byte> {
    if !Accepted(have, c) then have else if Completes(have, c) then [] else have + c.payload
  }

  /** The bytes held after one chunk. */
  function Then(m: Partial, c: Chunk): Partial { m[c.id := Left(Get(m, c.id), c)] }

  /** The frame a chunk completes, with its id, if it completes one. */
  function Completed(m: Partial, c: Chunk): seq<(int, seq<Byte>)> {
    var have := Get(m, c.id);
    if Completes(have, c) then [(c.id, have + c.payload)] else []
  }

  /** The completed frames, with their ids, in the order of completion. */
  function Frames(m: Partial, cs: seq<Chunk>): seq<(int, seq<Byte>)>
    decreases |cs|
  {
    if cs == [] then [] else Completed(m, cs[0]) + Frames(Then(m, cs[0]), cs[1..])
  }

  /** The bytes held after all chunks. */
  function After(m: Partial, cs: seq<Chunk>): Partial
    decreases |cs|
  {
    if cs == [] then m else After(Then(m, cs[0]), cs[1..])
  }

  function Only(cs: seq<Chunk>, id: int): seq<Chunk> {
    if cs == [] then [] else (if cs[0].id == id then [cs[0]] else []) + Only(cs[1..], id)
  }

  function OnlyFrames(fs: seq<(int, seq<Byte>)>, id: int): seq<(int, seq<Byte>)> {
    if fs == [] then [] else (if fs[0].0 == id then [fs[0]] else []) + OnlyFrames(fs[1..], id)
  }

  lemma {:induction false} SameId(m: Partial, n: Partial, cs: seq<Chunk>, id: int)
    requires Get(m, id) == Get(n, id) && forall i :: 0 <= i < |cs| ==> cs[i].id == id
    ensures Frames(m, cs) == Frames(n, cs)
    decreases |cs|
  {
    if cs != [] {
      var l := Left(Get(m, id), cs[0]);
      SameId(m[id := l], n[id := l], cs[1..], id);
    }
  }

  lemma {:induction false} OnlyHasId(cs: seq<Chunk>, id: int)
    ensures forall i :: 0 <= i < |Only(cs, id)| ==> Only(cs, id)[i].id == id
    decreases |cs|
  {
    if cs != [] { OnlyHasId(cs[1..], id); }
  }

  /** However the chunks of different frames interleave, each id gets the frames its own chunks alone would give. */
  lemma {:induction false} Interleaving(m: Partial, cs: seq<Chunk>, id: int)
    ensures OnlyFrames(Frames(m, cs), id) == Frames(m, Only(cs, id))
    ensures Get(After(m, cs), id) == Get(After(m, Only(cs, id)), id)
    decreases |cs|
  {
    if cs != [] {
      var c, have := cs[0], Get(m, cs[0].id);
      var n := m[c.id := Left(have, c)];
      var rest := Only(cs[1..], id);
      Interleaving(n, cs[1..], id);
      OnlyHasId(cs[1..], id);
      var fs := Frames(n, cs[1..]);
      if Completes(have, c) {
        assert Frames(m, cs)[1..] == fs;
      } else {
        assert Frames(m, cs) == fs;
      }
      if c.id == id {
        assert ([c] + rest)[1..] == rest;
      } else {
        assert Only(cs, id) == rest;
        SameId(m, n, rest, id);
        SameIdAfter(m, n, rest, id);
      }
    }
  }

  lemma {:induction false} SameIdAfter(m: Partial, n: Partial, cs: seq<Chunk>, id: int)
    requires Get(m, id) == Get(n, id) && forall i :: 0 <= i < |cs| ==> cs[i].id == id
    ensures Get(After(m, cs), id) == Get(After(n, cs), id)
    decreases |cs|
  {
    if cs != [] {
      var l := Left(Get(m, id), cs[0]);
      SameIdAfter(m[id := l], n[id := l], cs[1..], id);
    }
  }

  /** All payload bytes of the accepted chunks. */
  function Received(m: Partial, cs: seq<Chunk>): seq<Byte>
    decreases |cs|
  {
    if cs == [] then []
    else
      var c, have := cs[0], Get(m, cs[0].id);
      (if Accepted(have, c) then c.payload else []) + Received(Then(m, c), cs[1..])
  }

  function Joined(fs: seq<(int, seq<Byte>)>): seq<Byte> {
    if fs == [] then [] else fs[0].1 + Joined(fs[1..])
  }

  /** For one id the completed frames and what is still held are exactly the bytes received, in order. */
  lemma {:induction false} NothingLost(m: Partial, cs: seq<Chunk>, id: int)
    requires forall i :: 0 <= i < |cs| ==> cs[i].id == id
    ensures Joined(Frames(m, cs)) + Get(After(m, cs), id) == Get(m, id) + Received(m, cs)
    decreases |cs|
  {
    if cs != [] {
      var c, have := cs[0], Get(m, id);
      var n := m[id := Left(have, c)];
      NothingLost(n, cs[1..], id);
      var fs := Frames(n, cs[1..]);
      var tail := Received(n, cs[1..]);
      var held := Get(After(n, cs[1..]), id);
      if Completes(have, c) {
        assert Frames(m, cs)[1..] == fs;
        Regroup(have + c.payload, Joined(fs), held);
        Regroup(have, c.payload, tail);
        assert [] + tail == tail;
      } else if Accepted(have, c) {
        assert Frames(m, cs) == fs;
        Regroup(have, c.payload, tail);
      } else {
        assert Frames(m, cs) == fs && Received(m, cs) == tail;
      }
    }
  }

  lemma Regroup(a: seq<Byte>, b: seq<Byte>, c: seq<Byte>)
    ensures (a + b) + c == a + (b + c)
  {
  }

  /** What is held after an accepted chunk has not reached the size it announces. */
  lemma HeldIsShort(m: Partial, c: Chunk)
    requires Accepted(Get(m, c.id), c)
    ensures var held := Get(Then(m, c), c.id);
            (held == [] || |held| < c.whole) && (held == [] ==> c.payload == [] || Completed(m, c) != [])
  {
  }

  /** A chunk of negative size changes nothing; one of size 0 is handed out at once, with all that is held. */
  lemma SizeEdges(m: Partial, c: Chunk)
    requires |c.payload| + |Get(m, c.id)| + PADDING <= UINT_MAX
    ensures c.whole < 0 ==> Completed(m, c) == [] && Get(Then(m, c), c.id) == Get(m, c.id)
    ensures c.whole == 0 ==> Completed(m, c) == [(c.id, Get(m, c.id) + c.payload)] && Get(Then(m, c), c.id) == []
  {
  }

  function Payload(cs: seq<Chunk>): seq<Byte>
    decreases |cs|
  {
    if cs == [] then [] else cs[0].payload + Payload(cs[1..])
  }

  /** Chunks of one frame that announce the same size, the bytes of all but the last falling short of it. */
  ghost predicate OneFrame(have: seq<Byte>, cs: seq<Chunk>, id: int, whole: int) {
    && cs != [] && (forall k :: 0 <= k < |cs| ==> cs[k].id == id && cs[k].whole == whole)
    && |have| + |Payload(cs[..|cs| - 1])| < whole && |have| + |Payload(cs)| + PADDING <= UINT_MAX
  }

  /** They are handed out as that frame, once, with the chunk that reaches the size; short of it they stay held. */
  lemma {:induction false} FrameWhenReached(m: Partial, cs: seq<Chunk>, id: int, whole: int)
    requires OneFrame(Get(m, id), cs, id, whole)
    ensures var all := Get(m, id) + Payload(cs);
            && Frames(m, cs) == (if |all| >= whole then [(id, all)] else [])
            && Get(After(m, cs), id) == (if |all| >= whole then [] else all)
    decreases |cs|
  {
    var c, have, rest := cs[0], Get(m, id), cs[1..];
    var n := Then(m, c);
    Regroup(have, c.payload, Payload(rest));
    if rest == [] {
      assert cs[..|cs| - 1] == [] && c.payload + [] == c.payload;
      assert Frames(n, rest) == [] && Completed(m, c) + [] == Completed(m, c);
    } else {
      var before := cs[..|cs| - 1];
      assert before[0] == c && before[1..] == rest[..|rest| - 1];
      assert Completed(m, c) == [];
      FrameWhenReached(n, rest, id, whole);
      assert [] + Frames(n, rest) == Frames(n, rest);
    }
  }

  /** So do they when the chunks of any other frames come in between. */
  lemma InterleavedFrame(cs: seq<Chunk>, id: int, whole: int)
    requires OneFrame([], Only(cs, id), id, whole)
    ensures var all := Payload(Only(cs, id));
            OnlyFrames(Frames(map[], cs), id) == if |all| >= whole then [(id, all)] else []
  {
    Interleaving(map[], cs, id);
    FrameWhenReached(map[], Only(cs, id), id, whole);
    assert [] + Payload(Only(cs, id)) == Payload(Only(cs, id));
  }

  // ---- the slots ---------------------------------------------------------------------------------------------

  datatype Slot = Slot(size: nat, id: int, data: seq<Byte>)

  datatype Result = Invalid | More | Whole(bytes: seq<Byte>)

  /** Non-zero ids are distinct, and every buffer has room for its size. */
  ghost predicate SlotsOk(s: seq<Slot>) {
    && |s| == SLOTS
    && (forall i :: 0 <= i < SLOTS ==> s[i].size <= |s[i].data|)
    && (forall i, j :: 0 <= i < j < SLOTS && s[i].id == s[j].id ==> s[i].id == 0)
  }

  /** The bytes collected for frame `id`. */
  ghost function Held(s: seq<Slot>, id: int): seq<Byte>
    requires SlotsOk(s)
  {
    if i :| 0 <= i < SLOTS && s[i].id == id then s[i].data[..s[i].size] else []
  }

  lemma HeldAt(s: seq<Slot>, i: nat)
    requires SlotsOk(s) && i < SLOTS && s[i].id != 0
    ensures Held(s, s[i].id) == s[i].data[..s[i].size]
  {
  }

  /** The slots hold, for every non-zero id, exactly the bytes the map has. */
  ghost predicate Represents(s: seq<Slot>, m: Partial)
    requires SlotsOk(s)
  {
    forall id :: id != 0 ==> Held(s, id) == Get(m, id)
  }

  /** A slot for `id` can be found: its own, or a free one. */
  ghost predicate HasRoom(s: seq<Slot>, id: int)
    requires |s| == SLOTS
  {
    exists i :: 0 <= i < SLOTS && (s[i].id == id || s[i].size == 0)
  }

  /** Bytes are only kept under a non-zero id. */
  ghost predicate Clean(s: seq<Slot>) {
    forall i :: 0 <= i < |s| && s[i].size > 0 ==> s[i].id != 0
  }

  /** The ids of frames that have begun and are not complete. */
  function Pending(m: Partial): set<int> { set id | id in m && id != 0 && m[id] != [] }

  /** The ids of the first `n` slots that hold bytes. */
  function BusyIds(s: seq<Slot>, n: nat): set<int>
    requires n <= |s|
  {
    if n == 0 then {} else BusyIds(s, n - 1) + if s[n - 1].size > 0 then {s[n - 1].id} else {}
  }

  lemma {:induction false} BusyMembers(s: seq<Slot>, n: nat, id: int)
    requires n <= |s|
    ensures id in BusyIds(s, n) <==> exists i :: 0 <= i < n && s[i].size > 0 && s[i].id == id
  {
    if n > 0 { BusyMembers(s, n - 1, id); }
  }

  lemma {:induction false} BusyCount(s: seq<Slot>, n: nat)
    requires SlotsOk(s) && Clean(s) && n <= SLOTS
    ensures |BusyIds(s, n)| <= n
    ensures |BusyIds(s, n)| == n <==> forall i :: 0 <= i < n ==> s[i].size > 0
  {
    if n > 0 {
      BusyCount(s, n - 1);
      BusyMembers(s, n - 1, s[n - 1].id);
    }
  }

  lemma BusyIsPending(s: seq<Slot>, m: Partial)
    requires SlotsOk(s) && Clean(s) && Represents(s, m)
    ensures BusyIds(s, SLOTS) == Pending(m)
  {
    forall id ensures id in BusyIds(s, SLOTS) <==> id in Pending(m) {
      BusyMembers(s, SLOTS, id);
      if id != 0 {
        assert Held(s, id) == Get(m, id);
        if i :| 0 <= i < SLOTS && s[i].id == id { HeldAt(s, i); }
      }
    }
  }

  predicate RoomFor(m: Partial, id: int) { |Pending(m)| < SLOTS || id in Pending(m) }

  /** There is a slot for a frame if and only if fewer than 100 are pending, or it is one of them. */
  lemma RoomIff(s: seq<Slot>, m: Partial, id: int)
    requires SlotsOk(s) && Clean(s) && Represents(s, m) && id != 0
    ensures HasRoom(s, id) <==> RoomFor(m, id)
  {
    BusyIsPending(s, m);
    BusyCount(s, SLOTS);
    BusyMembers(s, SLOTS, id);
  }

  /** Setting one slot to the new bytes of `id` changes what is held for `id` and for nothing else. */
  lemma PutSlot(s: seq<Slot>, t: seq<Slot>, i: nat, id: int, left: seq<Byte>)
    requires SlotsOk(s) && i < SLOTS && |t| == SLOTS
    requires s[i].id == id || (s[i].size == 0 && forall j :: 0 <= j < SLOTS ==> s[j].id != id)
    requires forall j :: 0 <= j < SLOTS && j != i ==> t[j] == s[j]
    requires t[i].size <= |t[i].data| && t[i].data[..t[i].size] == left
    requires t[i].id == id || (t[i].id == 0 && left == [])
    ensures SlotsOk(t) && (id != 0 ==> Held(t, id) == left)
    ensures forall other :: other != 0 && other != id ==> Held(t, other) == Held(s, other)
  {
    forall other | other != 0 && other != id ensures Held(t, other) == Held(s, other) {
      if j :| 0 <= j < SLOTS && s[j].id == other {
        if j == i {
          assert Held(s, other) == [];
        } else {
          assert t[j].id == other;
        }
      }
    }
  }

  /** Chunks of non-zero ids that fit a packet. */
  ghost predicate Genuine(cs: seq<Chunk>) {
    forall k :: 0 <= k < |cs| ==> cs[k].id != 0 && |cs[k].payload| <= 0x7FFF_FFFF
  }

  /** No chunk begins a 101st frame while 100 are pending. */
  predicate FewPending(m: Partial, cs: seq<Chunk>)
    decreases |cs|
  {
    cs == [] || (RoomFor(m, cs[0].id) && FewPending(Then(m, cs[0]), cs[1..]))
  }

  class Reassembler {
    const version: int
    const cfrm: array<Slot>

    constructor (version: int)
      ensures this.version == version && fresh(cfrm) && Valid() && Represents(cfrm[..], map[]) && Clean(cfrm[..])
    {
      this.version := version;
      cfrm := new Slot[SLOTS](_ => Slot(0, 0, []));
    }

    ghost predicate Valid()
      reads cfrm
    {
      SlotsOk(cfrm[..])
    }

    /** The search loop: the slot that already has the id, or else the last free one; -1 if there is neither. */
    method FindSlot(id: int) returns (i: int, found: bool)
      requires Valid()
      ensures found ==> 0 <= i < SLOTS && cfrm[i].id == id
      ensures !found ==> forall j :: 0 <= j < SLOTS ==> cfrm[j].id != id
      ensures !found && 0 <= i ==> i < SLOTS && cfrm[i].size == 0
      ensures !found && i < 0 ==> i == -1 && forall j :: 0 <= j < SLOTS ==> cfrm[j].size != 0
    {
      var free := -1;
      i := 0;
      while i < SLOTS
        invariant 0 <= i <= SLOTS && -1 <= free < i
        invariant forall j :: 0 <= j < i ==> cfrm[j].id != id
        invariant free >= 0 ==> cfrm[free].size == 0
        invariant free < 0 ==> forall j :: 0 <= j < i ==> cfrm[j].size != 0
      {
        if cfrm[i].id == id { return i, true; }
        if cfrm[i].size == 0 { free := i; }
        i := i + 1;
      }
      i, found := free, false;
    }

    /**
     * One `cfrm` packet. In terms of any map the slots represent: other frames are untouched, and this frame, if its id
     * is not zero, gains the payload and is handed out and forgotten once it has reached its announced size.
     */
    method AddChunk(c: Chunk, ghost m: Partial) returns (r: Result)
      requires Valid() && Represents(cfrm[..], m) && HasRoom(cfrm[..], c.id)
      requires |c.payload| <= 0x7FFF_FFFF
      modifies cfrm
      ensures Valid()
      ensures version <= 1 || c.whole < 0 ==> r == Invalid && cfrm[..] == old(cfrm[..])
      ensures c.id == 0 ==> Represents(cfrm[..], m)
      ensures c.id != 0 ==>
                var have := Get(m, c.id);
                if version <= 1 || !Accepted(have, c) then r == Invalid && Represents(cfrm[..], m)
                else
                  && r == (if Completes(have, c) then Whole(have + c.payload) else More)
                  && Represents(cfrm[..], m[c.id := Left(have, c)])
      ensures c.id != 0 && old(Clean(cfrm[..])) ==> Clean(cfrm[..])
    {
      if version <= 1 { return Invalid; }
      if c.whole < 0 { return Invalid; }
      ghost var was := cfrm[..];
      var i, found := FindSlot(c.id);
      if !found {
        assert was[i].id == cfrm[i].id;
        cfrm[i] := cfrm[i].(id := c.id);
        PutSlot(was, cfrm[..], i, c.id, []);
        if c.id != 0 { HeldNone(was, c.id); }
      } else if c.id != 0 {
        HeldAt(was, i);
      }
      assert c.id != 0 ==> Held(cfrm[..], c.id) == Get(m, c.id);
      r := Append(i, c, m);
    }

    /** The chunk goes into slot `i`, which already carries its id. */
    method Append(i: nat, c: Chunk, ghost m: Partial) returns (r: Result)
      requires Valid() && i < SLOTS && cfrm[i].id == c.id && Represents(cfrm[..], m) && c.whole >= 0
      modifies cfrm
      ensures Valid()
      ensures c.id == 0 ==> Represents(cfrm[..], m)
      ensures c.id != 0 ==>
                var have := Get(m, c.id);
                r == (if !Accepted(have, c) then Invalid
                      else if Completes(have, c) then Whole(have + c.payload) else More)
                && Represents(cfrm[..], m[c.id := Left(have, c)])
      ensures c.id != 0 && old(Clean(cfrm[..])) ==> Clean(cfrm[..])
    {
      ghost var mid := cfrm[..];
      if c.id != 0 {
        HeldAt(mid, i);
        assert Held(mid, c.id) == Get(m, c.id);
      }
      var have := cfrm[i].size;
      if |c.payload| > UINT_MAX - have - PADDING { return Invalid; }
      ghost var whole := cfrm[i].data[..have] + c.payload;
      cfrm[i] := cfrm[i].(data := cfrm[i].data[..have] + c.payload, size := have + |c.payload|);
      if cfrm[i].size >= c.whole {
        r := Whole(cfrm[i].data[..cfrm[i].size]);
        cfrm[i] := cfrm[i].(size := 0, id := 0);
        PutSlot(mid, cfrm[..], i, c.id, []);
      } else {
        r := More;
        PutSlot(mid, cfrm[..], i, c.id, whole);
      }
    }

    /**
     * A whole stream of chunks: the frames handed out are the completed frames of the chunks, in the order of
     * completion.
     */
    method AddAll(cs: seq<Chunk>, ghost m: Partial) returns (fs: seq<(int, seq<Byte>)>)
      requires Valid() && Represents(cfrm[..], m) && Clean(cfrm[..]) && Genuine(cs) && FewPending(m, cs)
      modifies cfrm
      ensures Valid() && Clean(cfrm[..])
      ensures version > 1 ==> fs == Frames(m, cs) && Represents(cfrm[..], After(m, cs))
      ensures version <= 1 ==> fs == [] && cfrm[..] == old(cfrm[..])
    {
      hide SlotsOk, Clean, Represents, Held, FewPending, RoomFor, Pending, Frames, After, Then, Completed, Genuine;
      fs := [];
      if version <= 1 { return; }
      ghost var now := m;
      var k := 0;
      assert cs[0..] == cs;
      while k < |cs|
        invariant 0 <= k <= |cs| && Valid() && Clean(cfrm[..]) && Represents(cfrm[..], now)
        invariant FewPending(now, cs[k..])
        invariant fs + Frames(now, cs[k..]) == Frames(m, cs)
        invariant After(now, cs[k..]) == After(m, cs)
      {
        StreamStep(now, cs, k);
        var f := AddNext(cs[k], now);
        fs, now, k := fs + f, Then(now, cs[k]), k + 1;
      }
      StreamEnd(now, cs[|cs|..]);
    }

    /** One chunk of a stream, and the frame it completes, if any. */
    method AddNext(c: Chunk, ghost m: Partial) returns (fs: seq<(int, seq<Byte>)>)
      requires Valid() && Represents(cfrm[..], m) && Clean(cfrm[..]) && version > 1
      requires c.id != 0 && |c.payload| <= 0x7FFF_FFFF && RoomFor(m, c.id)
      modifies cfrm
      ensures Valid() && Represents(cfrm[..], Then(m, c)) && Clean(cfrm[..])
      ensures fs == Completed(m, c)
    {
      hide SlotsOk, Clean, Represents, Held, HasRoom, Pending, RoomFor;
      RoomIff(cfrm[..], m, c.id);
      var r := AddChunk(c, m);
      fs := if r.Whole? then [(c.id, r.bytes)] else [];
      if !Accepted(Get(m, c.id), c) { SameBytes(cfrm[..], m, c.id); }
    }
  }

  lemma StreamStep(m: Partial, cs: seq<Chunk>, k: nat)
    requires k < |cs| && FewPending(m, cs[k..]) && Genuine(cs)
    ensures cs[k].id != 0 && |cs[k].payload| <= 0x7FFF_FFFF && RoomFor(m, cs[k].id)
    ensures FewPending(Then(m, cs[k]), cs[k + 1..])
    ensures Frames(m, cs[k..]) == Completed(m, cs[k]) + Frames(Then(m, cs[k]), cs[k + 1..])
    ensures After(m, cs[k..]) == After(Then(m, cs[k]), cs[k + 1..])
  {
    assert cs[k..][1..] == cs[k + 1..];
  }

  lemma StreamEnd(m: Partial, cs: seq<Chunk>)
    requires cs == []
    ensures Frames(m, cs) == [] && After(m, cs) == m
  {
  }

  lemma SameBytes(s: seq<Slot>, m: Partial, id: int)
    requires SlotsOk(s) && Represents(s, m)
    ensures Represents(s, m[id := Get(m, id)])
  {
    hide Held;
  }

  /** No slot with the id: nothing is held for it. */
  lemma HeldNone(s: seq<Slot>, id: int)
    requires SlotsOk(s) && forall i :: 0 <= i < SLOTS ==> s[i].id != id
    ensures Held(s, id) == []
  {
  }

  // ---- when the slots run out ----------------------------------------------------------------------------------

  lemma SmallerSet(a: set<int>, b: set<int>)
    requires a <= b
    ensures |a| <= |b|
  {
    assert b == a + (b - a);
  }

  /** Chunks of at most 100 different frames, those pending included, never run out of slots. */
  lemma {:induction false} FewIdsFewPending(m: Partial, cs: seq<Chunk>, all: set<int>)
    requires |all| <= SLOTS && Pending(m) <= all && forall k :: 0 <= k < |cs| ==> cs[k].id in all
    ensures FewPending(m, cs)
    decreases |cs|
  {
    if cs != [] {
      var c := cs[0];
      SmallerSet(Pending(m), all);
      if c.id !in Pending(m) { SmallerSet(Pending(m) + {c.id}, all); }
      FewIdsFewPending(Then(m, c), cs[1..], all);
    }
  }

  lemma {:induction false} Untouched(m: Partial, cs: seq<Chunk>, id: int)
    requires forall k :: 0 <= k < |cs| ==> cs[k].id != id
    ensures Get(After(m, cs), id) == Get(m, id)
    decreases |cs|
  {
    if cs != [] { Untouched(Then(m, cs[0]), cs[1..], id); }
  }

  /** One byte of each of the frames 1 to `n`, all of two bytes. */
  function FirstBytes(n: nat): (cs: seq<Chunk>)
    ensures |cs| == n && forall k :: 0 <= k < n ==> cs[k] == Chunk(k + 1, 2, [0])
  {
    seq(n, k => Chunk(k + 1, 2, [0]))
  }

  lemma {:induction false} AllPending(m: Partial, n: nat, k: nat, at: nat)
    requires at <= k < n && forall id :: id > at ==> Get(m, id) == []
    ensures Get(After(m, FirstBytes(n)[at..]), k + 1) == [0]
    decreases n - at
  {
    var cs := FirstBytes(n)[at..];
    var next := Then(m, cs[0]);
    assert cs[0] == Chunk(at + 1, 2, [0]) && cs[1..] == FirstBytes(n)[at + 1..];
    forall id | id > at + 1 ensures Get(next, id) == [] { assert Get(m, id) == []; }
    if k == at { Untouched(next, cs[1..], k + 1); } else { AllPending(next, n, k, at + 1); }
  }

  function UpTo(n: nat): (s: set<int>)
    ensures |s| == n && forall id :: id in s <==> 0 < id <= n
  {
    if n == 0 then {} else UpTo(n - 1) + {n}
  }

  lemma NothingPending(m: Partial)
    requires m == map[]
    ensures Pending(m) == {}
  {
  }

  lemma HundredPending()
    ensures FewPending(map[], FirstBytes(SLOTS)) && Genuine(FirstBytes(SLOTS))
    ensures !RoomFor(After(map[], FirstBytes(SLOTS)), SLOTS + 1)
  {
    hide FewPending, After, UpTo, Get;
    var cs, all := FirstBytes(SLOTS), UpTo(SLOTS);
    NothingPending(map[]);
    FewIdsFewPending(map[], cs, all);
    HundredIn(After(map[], cs));
  }

  lemma HundredIn(m: Partial)
    requires m == After(map[], FirstBytes(SLOTS))
    ensures !RoomFor(m, SLOTS + 1)
  {
    hide FewPending, After, UpTo, FirstBytes;
    var cs, all := FirstBytes(SLOTS), UpTo(SLOTS);
    assert cs[0..] == cs;
    forall id | id in all ensures id in Pending(m) { AllPending(map[], SLOTS, id - 1, 0); }
    SmallerSet(all, Pending(m));
    Untouched(map[], cs, SLOTS + 1);
  }

  /**
   * A state that is reached: 100 frames begun, and the search for a slot for the 101st finds neither its own nor a free
   * one.
   */
  method HundredFramesBegun(version: int) returns (r: Reassembler, i: int, found: bool)
    requires version > 1
    ensures i == -1 && !found
  {
    HundredPending();
    hide FewPending, Pending, RoomFor, FirstBytes;
    r := new Reassembler(version);
    var fs := r.AddAll(FirstBytes(SLOTS), map[]);
    i, found := r.FindSlot(SLOTS + 1);
    RoomIff(r.cfrm[..], After(map[], FirstBytes(SLOTS)), SLOTS + 1);
  }
}
