/**
 * decode_p_block and decode_p_frame of libavcodec/4xm.c as functions: which leaf blocks a bit stream asks for, and why
 * they tile the frame and only read inside the previous one.
 */
module FourXmBlocks {
  import opened Basics

  type Pixel = p: int | 0 <= p < 65536

  // ---- the block type code ------------------------------------------------------------------------------

  /** (code, length) of the block types 0..7, for versions above 1 and up to 1, for each shape class. */
  const BLOCK_TYPE_TAB: seq<seq<seq<(nat, nat)>>> := [
    [[(0, 1), (2, 2), (6, 3), (14, 4), (30, 5), (31, 5), (0, 0)],
     [(0, 1), (0, 0), (2, 2), (6, 3), (14, 4), (15, 4), (0, 0)],
     [(0, 1), (2, 2), (0, 0), (6, 3), (14, 4), (15, 4), (0, 0)],
     [(0, 1), (0, 0), (0, 0), (2, 2), (6, 3), (14, 4), (15, 4)]],
    [[(1, 2), (4, 3), (5, 3), (0, 2), (6, 3), (7, 3), (0, 0)],
     [(1, 2), (0, 0), (2, 2), (0, 2), (6, 3), (7, 3), (0, 0)],
     [(1, 2), (2, 2), (0, 0), (0, 2), (6, 3), (7, 3), (0, 0)],
     [(1, 2), (0, 0), (0, 0), (0, 2), (2, 2), (6, 3), (7, 3)]]
  ]

  /** size2index: the shape class of a block; 255 is the stored form of the source's -1. */
  function SizeToIndex(log2h: nat, log2w: nat): nat {
    if log2h == 0 then (if log2w == 0 then 255 else if log2w == 1 then 3 else 1)
    else if log2w == 0 then (if log2h == 1 then 3 else 2)
    else 0
  }

  /** Type `sym` is coded by the head of the five-bit window. */
  predicate Matches(tab: seq<(nat, nat)>, sym: nat, window: nat)
    requires sym < |tab|
  {
    0 < tab[sym].1 <= 5
    && tab[sym].0 * Pow2(5 - tab[sym].1) <= window < (tab[sym].0 + 1) * Pow2(5 - tab[sym].1)
  }

  function Table(version: int, index: nat): (t: seq<(nat, nat)>)
    requires index < 4
    ensures |t| == 7
  {
    BLOCK_TYPE_TAB[if version > 1 then 0 else 1][index]
  }

  /** What get_vlc2 returns for the five bits of `window`: the block type, table by table. */
  function TypeOf(version: int, index: nat, window: nat): nat {
    if version > 1 then
      if window < 16 then 0
      else if window < 24 then (if index == 0 || index == 2 then 1 else if index == 1 then 2 else 3)
      else if window < 28 then (if index == 0 then 2 else if index == 3 then 4 else 3)
      else if window < 30 then (if index == 0 then 3 else if index == 3 then 5 else 4)
      else if window < 31 then (if index == 0 then 4 else if index == 3 then 6 else 5)
      else (if index == 3 then 6 else 5)
    else
      if window < 8 then 3
      else if window < 16 then 0
      else if window < 20 then (if index == 0 || index == 2 then 1 else if index == 1 then 2 else 4)
      else if window < 24 then (if index == 0 || index == 1 then 2 else if index == 2 then 1 else 4)
      else if window < 28 then (if index == 3 then 5 else 4)
      else (if index == 3 then 6 else 5)
  }

  /** The number of bits that type takes. */
  function LengthOf(version: int, index: nat, code: nat): (n: nat)
    ensures 1 <= n <= 5
  {
    if version > 1 then
      if code == 0 then 1
      else if index == 0 then (if code == 1 then 2 else if code == 2 then 3 else if code == 3 then 4 else 5)
      else if index == 3 then (if code == 3 then 2 else if code == 4 then 3 else 4)
      else if code <= 2 then 2
      else if code == 3 then 3
      else 4
    else
      if code == 0 || code == 3 then 2
      else if index == 0 || code > 4 || (code == 4 && index != 3) then 3
      else 2
  }

  lemma Powers()
    ensures Pow2(0) == 1 && Pow2(1) == 2 && Pow2(2) == 4 && Pow2(3) == 8 && Pow2(4) == 16
  {
  }

  lemma TypesCompleteNew(version: int, index: nat, window: nat, s: nat)
    requires version > 1 && index < 4 && window < 32 && s < 7
    ensures Matches(Table(version, index), s, window) <==> s == TypeOf(version, index, window)
    ensures Table(version, index)[TypeOf(version, index, window)].1
         == LengthOf(version, index, TypeOf(version, index, window))
  {
    Powers();
    var t := Table(version, index);
    if index == 0 {
      assert t == [(0, 1), (2, 2), (6, 3), (14, 4), (30, 5), (31, 5), (0, 0)];
    } else if index == 1 {
      assert t == [(0, 1), (0, 0), (2, 2), (6, 3), (14, 4), (15, 4), (0, 0)];
    } else if index == 2 {
      assert t == [(0, 1), (2, 2), (0, 0), (6, 3), (14, 4), (15, 4), (0, 0)];
    } else {
      assert t == [(0, 1), (0, 0), (0, 0), (2, 2), (6, 3), (14, 4), (15, 4)];
    }
  }

  lemma TypesCompleteOld(version: int, index: nat, window: nat, s: nat)
    requires version <= 1 && index < 4 && window < 32 && s < 7
    ensures Matches(Table(version, index), s, window) <==> s == TypeOf(version, index, window)
    ensures Table(version, index)[TypeOf(version, index, window)].1
         == LengthOf(version, index, TypeOf(version, index, window))
  {
    Powers();
    var t := Table(version, index);
    if index == 0 {
      assert t == [(1, 2), (4, 3), (5, 3), (0, 2), (6, 3), (7, 3), (0, 0)];
    } else if index == 1 {
      assert t == [(1, 2), (0, 0), (2, 2), (0, 2), (6, 3), (7, 3), (0, 0)];
    } else if index == 2 {
      assert t == [(1, 2), (2, 2), (0, 0), (0, 2), (6, 3), (7, 3), (0, 0)];
    } else {
      assert t == [(1, 2), (0, 0), (0, 0), (0, 2), (2, 2), (6, 3), (7, 3)];
    }
  }

  /**
   * In each table every five-bit window starts with the code of exactly one type, `TypeOf` names it and `LengthOf` its
   * length: the decoded type is always 0..6 and never one the table gives no code to.
   */
  lemma TypesComplete(version: int, index: nat, window: nat, s: nat)
    requires index < 4 && window < 32 && s < 7
    ensures TypeOf(version, index, window) < 7
    ensures Matches(Table(version, index), s, window) <==> s == TypeOf(version, index, window)
    ensures Table(version, index)[TypeOf(version, index, window)].1
         == LengthOf(version, index, TypeOf(version, index, window))
  {
    hide Matches, Table;
    if version > 1 {
      TypesCompleteNew(version, index, window, s);
    } else {
      TypesCompleteOld(version, index, window, s);
    }
  }

  // ---- what a P frame's streams decode to -----------------------------------------------------------------

  /** The constants of one frame: geometry, motion table and the three streams. */
  datatype Env = Env(version: int, stride: nat, height: nat, mv: seq<int>,
                     bits: seq<int>, bytes: seq<Byte>, words: seq<Byte>)

  ghost predicate WellFormed(e: Env) {
    |e.mv| == 256 && e.stride > 0 && forall i :: 0 <= i < |e.bits| ==> e.bits[i] == 0 || e.bits[i] == 1
  }

  /** Read positions in the bit, byte and word streams. */
  datatype Cursor = Cursor(bit: nat, byte: nat, word: nat)

  datatype Op = Skip | Raw(first: Pixel, second: Pixel) | Copy(src: int, scale: nat, dc: Pixel)

  /** One leaf: its top left pixel, its shape and what is written there. */
  datatype Leaf = Leaf(x: int, y: int, log2w: nat, log2h: nat, op: Op)

  /** `Abort` stands for a failed assertion, `Bad` for an error return; both keep the leaves already written. */
  datatype Outcome = Done(cur: Cursor, leaves: seq<Leaf>)
                   | Bad(cur: Cursor, leaves: seq<Leaf>)
                   | Abort(leaves: seq<Leaf>)

  function BitAt(e: Env, i: nat): (b: nat)
    requires WellFormed(e)
    ensures b <= 1
  {
    if i < |e.bits| then e.bits[i] else 0
  }

  /** The next five bits, most significant first; bits behind the end read as zero. */
  function Window(e: Env, pos: nat): (w: nat)
    requires WellFormed(e)
    ensures w < 32
  {
    16 * BitAt(e, pos) + 8 * BitAt(e, pos + 1) + 4 * BitAt(e, pos + 2) + 2 * BitAt(e, pos + 3) + BitAt(e, pos + 4)
  }

  function Word(e: Env, at: nat): (p: Pixel)
    requires at + 2 <= |e.words|
  {
    var low: int, high: int := e.words[at], e.words[at + 1];
    low + 256 * high
  }

  /** The offset of `n` rows of the frame: `stride * n`, by repeated addition. */
  function Rows(stride: nat, n: int): (o: int)
    ensures o >= 0
  {
    if n <= 0 then 0 else stride + Rows(stride, n - 1)
  }

  lemma {:induction false} RowsAdd(stride: nat, a: int, b: int)
    requires 0 <= a && 0 <= b
    ensures Rows(stride, a + b) == Rows(stride, a) + Rows(stride, b)
    decreases b
  {
    if b > 0 { RowsAdd(stride, a, b - 1); }
  }

  lemma {:induction false} RowsIsProduct(stride: nat, n: int)
    requires 0 <= n
    ensures Rows(stride, n) == stride * n
    decreases n
  {
    if n > 0 {
      RowsIsProduct(stride, n - 1);
      assert stride * n == stride * (n - 1) + stride;
    }
  }

  /** The last source offset from which a block of this shape still fits into the previous frame. */
  function LastStart(e: Env, log2w: nat, log2h: nat): int {
    Rows(e.stride, e.height - Pow2(log2h) + 1) - Pow2(log2w)
  }

  /** A leaf that copies from the previous frame, unless the source block leaves it. */
  function CopyLeaf(e: Env, cur: Cursor, x: int, y: int, log2w: nat, log2h: nat, op: Op): Outcome
    requires op.Copy?
  {
    if 0 <= op.src <= LastStart(e, log2w, log2h) then Done(cur, [Leaf(x, y, log2w, log2h, op)]) else Bad(cur, [])
  }

  function Then(o: Outcome, next: Outcome): Outcome {
    match next
    case Done(c, l) => Done(c, o.leaves + l)
    case Bad(c, l) => Bad(c, o.leaves + l)
    case Abort(l) => Abort(o.leaves + l)
  }

  /** The block types that end a block. */
  function LeafBlock(e: Env, cur: Cursor, code: nat, x: int, y: int, src: int, log2w: nat, log2h: nat): Outcome
    requires WellFormed(e)
  {
    if code == 6 then
      if |e.words| - cur.word < 4 then Bad(cur, [])
      else Done(cur.(word := cur.word + 4),
                [Leaf(x, y, log2w, log2h, Raw(Word(e, cur.word), Word(e, cur.word + 2)))])
    else if (code == 0 || code == 4) && |e.bytes| - cur.byte < 1 then Bad(cur, [])
    else if code == 0 then
      CopyLeaf(e, cur.(byte := cur.byte + 1), x, y, log2w, log2h, Copy(src + e.mv[e.bytes[cur.byte]], 1, 0))
    else if code == 3 && e.version >= 2 then Done(cur, [Leaf(x, y, log2w, log2h, Skip)])
    else if code == 4 then
      var next := cur.(byte := cur.byte + 1);
      if |e.words| - next.word < 2 then Bad(next, [])
      else CopyLeaf(e, next.(word := next.word + 2), x, y, log2w, log2h,
                    Copy(src + e.mv[e.bytes[cur.byte]], 1, Word(e, cur.word)))
    else if code == 5 then
      if |e.words| - cur.word < 2 then Bad(cur, [])
      else if !(0 <= src <= LastStart(e, log2w, log2h)) then Abort([])
      else CopyLeaf(e, cur.(word := cur.word + 2), x, y, log2w, log2h, Copy(src, 0, Word(e, cur.word)))
    else CopyLeaf(e, cur, x, y, log2w, log2h, Copy(src, 1, 0))
  }

  /** decode_p_block at destination pixel (x, y) with source offset `src` into the previous frame. */
  function Block(e: Env, cur: Cursor, x: int, y: int, src: int, log2w: int, log2h: int): Outcome
    requires WellFormed(e)
    decreases log2w + log2h, 0
  {
    if log2w < 0 || log2h < 0 || log2w > 3 || log2h > 3 then Abort([])
    else
      var index := SizeToIndex(log2h, log2w);
      if index > 3 then Abort([])
      else if |e.bits| - cur.bit < 1 then Bad(cur, [])
      else
        var code := TypeOf(e.version, index, Window(e, cur.bit));
        var c := cur.(bit := cur.bit + LengthOf(e.version, index, code));
        if code > 6 then Abort([])
        else
          if code == 1 && log2h > 0 then Down(e, c, x, y, src, log2w, log2h - 1)
          else if code == 2 && log2w > 0 then Across(e, c, x, y, src, log2w - 1, log2h)
          else if code == 1 || code == 2 then Abort([])
          else LeafBlock(e, c, code, x, y, src, log2w, log2h)
  }

  /** The upper half of a block, then the lower half (each of the given shape). */
  function Down(e: Env, c: Cursor, x: int, y: int, src: int, log2w: int, log2h: int): Outcome
    requires WellFormed(e) && log2h >= 0
    decreases log2w + log2h, 1
  {
    var o := Block(e, c, x, y, src, log2w, log2h);
    if !o.Done? then o
    else Then(o, Block(e, o.cur, x, y + Pow2(log2h), src + Rows(e.stride, Pow2(log2h)), log2w, log2h))
  }

  /** The left half of a block, then the right half. */
  function Across(e: Env, c: Cursor, x: int, y: int, src: int, log2w: int, log2h: int): Outcome
    requires WellFormed(e) && log2w >= 0
    decreases log2w + log2h, 1
  {
    var o := Block(e, c, x, y, src, log2w, log2h);
    if !o.Done? then o
    else Then(o, Block(e, o.cur, x + Pow2(log2w), y, src + Pow2(log2w), log2w, log2h))
  }

  // ---- tiling and reads ---------------------------------------------------------------------------------------

  ghost predicate InRect(px: int, py: int, x: int, y: int, w: int, h: int) {
    x <= px < x + w && y <= py < y + h
  }

  /** The pixels a leaf is responsible for: its rectangle, or the two pixels of a raw leaf. */
  ghost predicate Covers(l: Leaf, px: int, py: int) {
    match l.op
    case Raw(_, _) =>
      || (px == l.x && py == l.y)
      || (if l.log2w > 0 then px == l.x + 1 && py == l.y else px == l.x && py == l.y + 1)
    case _ => InRect(px, py, l.x, l.y, Pow2(l.log2w), Pow2(l.log2h))
  }

  /** How many of the leaves write pixel (px, py). */
  ghost function Cover(leaves: seq<Leaf>, px: int, py: int): nat {
    if leaves == [] then 0
    else Cover(leaves[..|leaves| - 1], px, py) + (if Covers(leaves[|leaves| - 1], px, py) then 1 else 0)
  }

  lemma {:induction false} CoverConcat(a: seq<Leaf>, b: seq<Leaf>, px: int, py: int)
    ensures Cover(a + b, px, py) == Cover(a, px, py) + Cover(b, px, py)
  {
    if b == [] {
      assert a + b == a;
    } else {
      assert (a + b)[..|a + b| - 1] == a + b[..|b| - 1];
      CoverConcat(a, b[..|b| - 1], px, py);
    }
  }

  /** A block shape the decoder meets: at most 8x8, at least two pixels. */
  ghost predicate Shape(log2w: int, log2h: int) {
    0 <= log2w <= 3 && 0 <= log2h <= 3 && log2w + log2h > 0
  }

  /** A block of valid shape inside the frame. */
  ghost predicate Inside(e: Env, x: int, y: int, log2w: int, log2h: int) {
    Shape(log2w, log2h) && 0 <= x && 0 <= y && x + Pow2(log2w) <= e.stride && y + Pow2(log2h) <= e.height
  }

  /** Pixel (c, r) of the block at source offset `src` lies in the previous frame. */
  ghost predicate ReadsInside(e: Env, src: int, c: int, r: int) {
    0 <= src + c + Rows(e.stride, r) < Rows(e.stride, e.height)
  }

  /** Everything a leaf may do: stay inside the frame, and copy only from inside the previous frame. */
  ghost predicate Safe(e: Env, l: Leaf) {
    Inside(e, l.x, l.y, l.log2w, l.log2h)
    && (l.op.Raw? ==> l.log2w + l.log2h == 1)
    && (l.op.Copy? ==>
          forall c, r :: 0 <= c < Pow2(l.log2w) && 0 <= r < Pow2(l.log2h) ==> ReadsInside(e, l.op.src, c, r))
  }

  lemma CopyStaysInside(e: Env, src: int, log2w: nat, log2h: nat, c: int, r: int)
    requires 0 <= src <= LastStart(e, log2w, log2h) && 0 <= c < Pow2(log2w) && 0 <= r < Pow2(log2h) <= e.height
    ensures ReadsInside(e, src, c, r)
  {
    var h := Pow2(log2h);
    RowsAdd(e.stride, e.height - h + 1, h - 1);
    RowsAdd(e.stride, r, h - 1 - r);
  }

  /** The bounds check accepts exactly the offsets from which the block's first and last pixel are in the frame. */
  lemma LastStartExact(e: Env, src: int, log2w: nat, log2h: nat)
    requires Pow2(log2h) <= e.height
    ensures 0 <= src <= LastStart(e, log2w, log2h)
       <==> 0 <= src && ReadsInside(e, src, Pow2(log2w) - 1, Pow2(log2h) - 1)
  {
    var h := Pow2(log2h);
    RowsAdd(e.stride, e.height - h + 1, h - 1);
  }

  /** The offset of pixel (x, y). */
  function Off(e: Env, x: int, y: int): int {
    Rows(e.stride, y) + x
  }

  /** The offset of an in-frame block is itself a valid source offset for its shape. */
  lemma OwnOffsetFits(e: Env, x: int, y: int, log2w: int, log2h: int)
    requires Inside(e, x, y, log2w, log2h)
    ensures 0 <= Off(e, x, y) <= LastStart(e, log2w, log2h)
  {
    var h := Pow2(log2h);
    RowsAdd(e.stride, y, 1);
    RowsAdd(e.stride, y + 1, e.height - h - y);
  }

  ghost predicate AllSafe(e: Env, leaves: seq<Leaf>) {
    forall i :: 0 <= i < |leaves| ==> Safe(e, leaves[i])
  }

  /** Pixel (px, py) is written at most once, only inside the rectangle, and exactly once there on success. */
  ghost predicate CoverOk(o: Outcome, x: int, y: int, w: int, h: int, px: int, py: int) {
    var inside := if InRect(px, py, x, y, w, h) then 1 else 0;
    Cover(o.leaves, px, py) <= inside && (o.Done? ==> Cover(o.leaves, px, py) == inside)
  }

  /**
   * The result of decoding a rectangle: no assertion fails, leaves are safe, and on success each pixel is covered once.
   */
  ghost predicate Tiles(e: Env, o: Outcome, x: int, y: int, w: int, h: int) {
    !o.Abort? && AllSafe(e, o.leaves) && forall px, py :: CoverOk(o, x, y, w, h, px, py)
  }

  /** One safe leaf that covers exactly its rectangle tiles it. */
  lemma SingleTiles(e: Env, cur: Cursor, l: Leaf, x: int, y: int, w: int, h: int)
    requires Safe(e, l) && forall px, py :: Covers(l, px, py) <==> InRect(px, py, x, y, w, h)
    ensures Tiles(e, Done(cur, [l]), x, y, w, h)
  {
    forall px, py ensures CoverOk(Done(cur, [l]), x, y, w, h, px, py) {
      assert [l][..0] == [] && [l][0] == l;
      assert Covers(l, px, py) <==> InRect(px, py, x, y, w, h);
    }
  }

  lemma CopyTiles(e: Env, cur: Cursor, x: int, y: int, log2w: int, log2h: int, op: Op)
    requires Inside(e, x, y, log2w, log2h) && op.Copy?
    ensures Tiles(e, CopyLeaf(e, cur, x, y, log2w, log2h, op), x, y, Pow2(log2w), Pow2(log2h))
  {
    if 0 <= op.src <= LastStart(e, log2w, log2h) {
      var l := Leaf(x, y, log2w, log2h, op);
      forall c, r | 0 <= c < Pow2(log2w) && 0 <= r < Pow2(log2h) ensures ReadsInside(e, op.src, c, r) {
        CopyStaysInside(e, op.src, log2w, log2h, c, r);
      }
      SingleTiles(e, cur, l, x, y, Pow2(log2w), Pow2(log2h));
    }
  }

  lemma RawOrSkipTiles(e: Env, cur: Cursor, x: int, y: int, log2w: int, log2h: int, op: Op)
    requires Inside(e, x, y, log2w, log2h) && !op.Copy? && (op.Raw? ==> log2w + log2h == 1)
    ensures Tiles(e, Done(cur, [Leaf(x, y, log2w, log2h, op)]), x, y, Pow2(log2w), Pow2(log2h))
  {
    assert Pow2(0) == 1 && Pow2(1) == 2;
    SingleTiles(e, cur, Leaf(x, y, log2w, log2h, op), x, y, Pow2(log2w), Pow2(log2h));
  }

  lemma NothingTiles(e: Env, cur: Cursor, x: int, y: int, w: int, h: int)
    ensures Tiles(e, Bad(cur, []), x, y, w, h)
  {
  }

  lemma LeafTiles(e: Env, cur: Cursor, code: nat, x: int, y: int, src: int, log2w: int, log2h: int)
    requires WellFormed(e) && Inside(e, x, y, log2w, log2h) && code <= 6 && code != 1 && code != 2
    requires 0 <= src <= LastStart(e, log2w, log2h)
    requires code == 6 ==> log2w + log2h == 1
    ensures Tiles(e, LeafBlock(e, cur, code, x, y, src, log2w, log2h), x, y, Pow2(log2w), Pow2(log2h))
  {
    var o := LeafBlock(e, cur, code, x, y, src, log2w, log2h);
    if o.Bad? {
      NothingTiles(e, o.cur, x, y, Pow2(log2w), Pow2(log2h));
    } else {
      var op := o.leaves[0].op;
      if op.Copy? {
        CopyTiles(e, o.cur, x, y, log2w, log2h, op);
      } else {
        RawOrSkipTiles(e, o.cur, x, y, log2w, log2h, op);
      }
    }
  }

  /** Two outcomes side by side tile the rectangle they share. */
  lemma TilesJoin(e: Env, a: Outcome, b: Outcome, x: int, y: int, w: int, h: int,
                  x1: int, y1: int, w1: int, h1: int, x2: int, y2: int, w2: int, h2: int)
    requires a.Done? && Tiles(e, a, x1, y1, w1, h1) && Tiles(e, b, x2, y2, w2, h2)
    requires forall px, py :: InRect(px, py, x, y, w, h) <==>
             InRect(px, py, x1, y1, w1, h1) || InRect(px, py, x2, y2, w2, h2)
    requires forall px, py :: !(InRect(px, py, x1, y1, w1, h1) && InRect(px, py, x2, y2, w2, h2))
    ensures Tiles(e, Then(a, b), x, y, w, h)
  {
    var o := Then(a, b);
    assert o.leaves == a.leaves + b.leaves;
    forall px, py ensures CoverOk(o, x, y, w, h, px, py) {
      CoverConcat(a.leaves, b.leaves, px, py);
      assert CoverOk(a, x1, y1, w1, h1, px, py) && CoverOk(b, x2, y2, w2, h2, px, py);
      assert InRect(px, py, x, y, w, h) <==> InRect(px, py, x1, y1, w1, h1) || InRect(px, py, x2, y2, w2, h2);
    }
  }

  /** A rectangle decoded only in part keeps its bound inside a larger one. */
  lemma TilesPart(e: Env, a: Outcome, x: int, y: int, w: int, h: int, x1: int, y1: int, w1: int, h1: int)
    requires !a.Done? && Tiles(e, a, x1, y1, w1, h1)
    requires x <= x1 && y <= y1 && x1 + w1 <= x + w && y1 + h1 <= y + h
    ensures Tiles(e, a, x, y, w, h)
  {
    forall px, py ensures CoverOk(a, x, y, w, h, px, py) {
      assert CoverOk(a, x1, y1, w1, h1, px, py);
    }
  }

  /** What the tables allow: types 1 and 2 only where that side can be halved, type 6 only for two-pixel blocks. */
  lemma AllowedTypes(version: int, log2w: int, log2h: int, window: nat)
    requires Shape(log2w, log2h) && window < 32
    ensures var index := SizeToIndex(log2h, log2w);
            index <= 3
            && var code := TypeOf(version, index, window);
               code <= 6
               && (code == 1 ==> log2h > 0 && Shape(log2w, log2h - 1))
               && (code == 2 ==> log2w > 0 && Shape(log2w - 1, log2h))
               && (code == 6 ==> log2w + log2h == 1)
  {
  }

  /** One unfolding of `Block` at a valid shape. */
  lemma BlockUnfold(e: Env, cur: Cursor, x: int, y: int, src: int, log2w: int, log2h: int)
    requires WellFormed(e) && Shape(log2w, log2h)
    ensures var code := TypeOf(e.version, SizeToIndex(log2h, log2w), Window(e, cur.bit));
            var c := cur.(bit := cur.bit + LengthOf(e.version, SizeToIndex(log2h, log2w), code));
            if |e.bits| - cur.bit < 1 then Block(e, cur, x, y, src, log2w, log2h) == Bad(cur, [])
            else if code == 1 then
              log2h > 0 && Block(e, cur, x, y, src, log2w, log2h) == Down(e, c, x, y, src, log2w, log2h - 1)
            else if code == 2 then
              log2w > 0 && Block(e, cur, x, y, src, log2w, log2h) == Across(e, c, x, y, src, log2w - 1, log2h)
            else Block(e, cur, x, y, src, log2w, log2h) == LeafBlock(e, c, code, x, y, src, log2w, log2h)
  {
    hide LeafBlock, Rows, Pow2, Window, Then, TypeOf, LengthOf, Down, Across, SizeToIndex, WellFormed;
    AllowedTypes(e.version, log2w, log2h, Window(e, cur.bit));
  }

  /** The two halves of a block, each tiled, tile the block; `down` tells which side was halved. */
  lemma HalvesTile(e: Env, a: Outcome, b: Outcome, x: int, y: int, log2w: int, log2h: int, down: bool)
    requires Shape(log2w, log2h) && (if down then log2h > 0 else log2w > 0)
    requires Tiles(e, a, x, y, if down then Pow2(log2w) else Pow2(log2w - 1),
                   if down then Pow2(log2h - 1) else Pow2(log2h))
    requires a.Done? ==>
               (if down then Tiles(e, b, x, y + Pow2(log2h - 1), Pow2(log2w), Pow2(log2h - 1))
                else Tiles(e, b, x + Pow2(log2w - 1), y, Pow2(log2w - 1), Pow2(log2h)))
    ensures Tiles(e, if a.Done? then Then(a, b) else a, x, y, Pow2(log2w), Pow2(log2h))
  {
    var w, h := Pow2(log2w), Pow2(log2h);
    if down {
      var half := Pow2(log2h - 1);
      if a.Done? { TilesJoin(e, a, b, x, y, w, h, x, y, w, half, x, y + half, w, half); }
      else { TilesPart(e, a, x, y, w, h, x, y, w, half); }
    } else {
      var half := Pow2(log2w - 1);
      if a.Done? { TilesJoin(e, a, b, x, y, w, h, x, y, half, h, x + half, y, half, h); }
      else { TilesPart(e, a, x, y, w, h, x, y, half, h); }
    }
  }

  /** The half of a block keeps the agreement between source offset and destination pixel. */
  lemma HalfOffsets(e: Env, x: int, y: int, src: int, half: int)
    requires src == Off(e, x, y) && 0 <= y && 0 <= half
    ensures src + Rows(e.stride, half) == Off(e, x, y + half)
    ensures src + half == Off(e, x + half, y)
  {
    RowsAdd(e.stride, y, half);
  }

  /**
   * From any block inside the frame whose source offset is its own offset, the recursion only meets valid shapes, no
   * assertion fails, accepted reads stay inside the previous frame, and success covers every pixel exactly once.
   */
  lemma {:induction false} BlockTiles(e: Env, cur: Cursor, x: int, y: int, src: int, log2w: int, log2h: int)
    requires WellFormed(e) && Inside(e, x, y, log2w, log2h) && src == Off(e, x, y)
    ensures Tiles(e, Block(e, cur, x, y, src, log2w, log2h), x, y, Pow2(log2w), Pow2(log2h))
    decreases log2w + log2h, 0
  {
    hide LeafBlock, Tiles, Block;
    BlockUnfold(e, cur, x, y, src, log2w, log2h);
    AllowedTypes(e.version, log2w, log2h, Window(e, cur.bit));
    var index := SizeToIndex(log2h, log2w);
    if |e.bits| - cur.bit < 1 {
      NothingTiles(e, cur, x, y, Pow2(log2w), Pow2(log2h));
    } else {
      var code := TypeOf(e.version, index, Window(e, cur.bit));
      var c := cur.(bit := cur.bit + LengthOf(e.version, index, code));
      if code == 1 {
        DownTiles(e, c, x, y, src, log2w, log2h);
      } else if code == 2 {
        AcrossTiles(e, c, x, y, src, log2w, log2h);
      } else {
        OwnOffsetFits(e, x, y, log2w, log2h);
        LeafTiles(e, c, code, x, y, src, log2w, log2h);
      }
    }
  }

  lemma {:induction false} DownTiles(e: Env, c: Cursor, x: int, y: int, src: int, log2w: int, log2h: int)
    requires WellFormed(e) && Inside(e, x, y, log2w, log2h) && src == Off(e, x, y) && Shape(log2w, log2h - 1)
    ensures Tiles(e, Down(e, c, x, y, src, log2w, log2h - 1), x, y, Pow2(log2w), Pow2(log2h))
    decreases log2w + log2h - 1, 1
  {
    hide Block;
    var half := Pow2(log2h - 1);
    BlockTiles(e, c, x, y, src, log2w, log2h - 1);
    var o := Block(e, c, x, y, src, log2w, log2h - 1);
    if o.Done? {
      HalfOffsets(e, x, y, src, half);
      BlockTiles(e, o.cur, x, y + half, src + Rows(e.stride, half), log2w, log2h - 1);
      HalvesTile(e, o, Block(e, o.cur, x, y + half, src + Rows(e.stride, half), log2w, log2h - 1), x, y, log2w, log2h,
                 true);
    } else {
      HalvesTile(e, o, o, x, y, log2w, log2h, true);
    }
  }

  lemma {:induction false} AcrossTiles(e: Env, c: Cursor, x: int, y: int, src: int, log2w: int, log2h: int)
    requires WellFormed(e) && Inside(e, x, y, log2w, log2h) && src == Off(e, x, y) && Shape(log2w - 1, log2h)
    ensures Tiles(e, Across(e, c, x, y, src, log2w - 1, log2h), x, y, Pow2(log2w), Pow2(log2h))
    decreases log2w + log2h - 1, 1
  {
    hide Block;
    var half := Pow2(log2w - 1);
    BlockTiles(e, c, x, y, src, log2w - 1, log2h);
    var o := Block(e, c, x, y, src, log2w - 1, log2h);
    if o.Done? {
      HalfOffsets(e, x, y, src, half);
      BlockTiles(e, o.cur, x + half, y, src + half, log2w - 1, log2h);
      HalvesTile(e, o, Block(e, o.cur, x + half, y, src + half, log2w - 1, log2h), x, y, log2w, log2h, false);
    } else {
      HalvesTile(e, o, o, x, y, log2w, log2h, false);
    }
  }

  // ---- the whole frame -----------------------------------------------------------------------------------------

  /** The 8x8 blocks from (x, y) on in raster order, as decode_p_frame's two loops visit them. */
  function Frame(e: Env, cur: Cursor, x: nat, y: nat): Outcome
    requires WellFormed(e)
    decreases e.height - y, e.stride - x
  {
    if y >= e.height then Done(cur, [])
    else if x >= e.stride then Frame(e, cur, 0, y + 8)
    else
      var o := Block(e, cur, x, y, Off(e, x, y), 3, 3);
      if !o.Done? then o else Then(o, Frame(e, o.cur, x + 8, y))
  }

  ghost predicate Blocked(e: Env, x: nat, y: nat) {
    WellFormed(e) && e.stride % 8 == 0 && e.height % 8 == 0 && x % 8 == 0 && y % 8 == 0
  }

  /** Pixel (px, py) belongs to a block from (x, y) on. */
  ghost predicate Remaining(e: Env, px: int, py: int, x: nat, y: nat) {
    0 <= px < e.stride && y <= py < e.height && (py >= y + 8 || px >= x)
  }

  lemma {:induction false} FrameTiles(e: Env, cur: Cursor, x: nat, y: nat, px: int, py: int)
    requires Blocked(e, x, y)
    ensures var o := Frame(e, cur, x, y);
            !o.Abort? && AllSafe(e, o.leaves)
            && Cover(o.leaves, px, py) <= (if Remaining(e, px, py, x, y) then 1 else 0)
            && (o.Done? ==> Cover(o.leaves, px, py) == if Remaining(e, px, py, x, y) then 1 else 0)
    decreases e.height - y, e.stride - x
  {
    hide Block;
    if y < e.height {
      if x >= e.stride {
        FrameTiles(e, cur, 0, y + 8, px, py);
      } else {
        assert Pow2(3) == 8 by { Powers(); }
        BlockTiles(e, cur, x, y, Off(e, x, y), 3, 3);
        var o := Block(e, cur, x, y, Off(e, x, y), 3, 3);
        assert CoverOk(o, x, y, 8, 8, px, py);
        if o.Done? {
          FrameTiles(e, o.cur, x + 8, y, px, py);
          CoverConcat(o.leaves, Frame(e, o.cur, x + 8, y).leaves, px, py);
        }
      }
    }
  }

  // ---- what the leaves leave in the frame -----------------------------------------------------------------------

  /**
   * One pixel of a motion-compensated row: pixels go in pairs through 32-bit arithmetic, a lone pixel through 16-bit.
   */
  function RowPixel(last: seq<Pixel>, s: int, log2w: nat, scale: nat, dc: Pixel, c: nat): Pixel
    requires 0 <= s && s + c + 2 <= |last| + (if log2w == 0 || c % 2 == 1 then 1 else 0)
  {
    var mul: int := dc;
    if log2w == 0 then
      var v: int := last[s + c];
      (scale * v + mul * 0x10001) % 0x10000
    else
      var k := c / 2 * 2;
      var low: int, high: int := last[s + k], last[s + k + 1];
      var t := ((low + 0x10000 * high) * scale + mul * 0x10001) % 0x1_0000_0000;
      if c % 2 == 0 then t % 0x10000 else t / 0x10000
  }

  /** A motion copy without a constant reproduces the previous frame's pixel; a fill has the constant everywhere. */
  lemma CopyAndFill(last: seq<Pixel>, s: int, log2w: nat, dc: Pixel, c: nat)
    requires 0 <= s && s + c + 2 <= |last| + (if log2w == 0 || c % 2 == 1 then 1 else 0)
    ensures RowPixel(last, s, log2w, 1, 0, c) == last[s + c]
    ensures RowPixel(last, s, log2w, 0, dc, c) == dc
  {
    var d: int := dc;
    if log2w == 0 {
      FillWord(d);
    } else {
      var k := c / 2 * 2;
      var low: int, high: int := last[s + k], last[s + k + 1];
      PairParts(low, high);
      PairParts(d, d);
      assert d * 0x10001 == d + 0x10000 * d;
    }
  }

  lemma FillWord(d: int)
    requires 0 <= d < 0x10000
    ensures (d * 0x10001) % 0x10000 == d
  {
    assert d * 0x10001 == d * 0x10000 + d;
  }

  lemma PairParts(low: int, high: int)
    requires 0 <= low < 0x10000 && 0 <= high < 0x10000
    ensures var t := (low + 0x10000 * high) % 0x1_0000_0000; t % 0x10000 == low && t / 0x10000 == high
  {
  }

  /** A copy with a constant adds it to both pixels of a pair, and the carry of the first reaches the second. */
  lemma CopyPlusConstant(last: seq<Pixel>, s: int, log2w: nat, dc: Pixel, c: nat)
    requires log2w > 0 && c % 2 == 0 && 0 <= s && s + c + 2 <= |last|
    ensures var low: int, high: int, d: int := last[s + c], last[s + c + 1], dc;
            && RowPixel(last, s, log2w, 1, dc, c) == (low + d) % 0x10000
            && RowPixel(last, s, log2w, 1, dc, c + 1) == (high + d + (low + d) / 0x10000) % 0x10000
  {
    var low: int, high: int, d: int := last[s + c], last[s + c + 1], dc;
    var a, b := low + d, high + d;
    assert (low + 0x10000 * high) * 1 + d * 0x10001 == a + 0x10000 * b;
    CarryParts(a, b);
  }

  lemma CarryParts(a: int, b: int)
    requires 0 <= a < 0x20000 && 0 <= b < 0x20000
    ensures var t := (a + 0x10000 * b) % 0x1_0000_0000;
            t % 0x10000 == a % 0x10000 && t / 0x10000 == (b + a / 0x10000) % 0x10000
  {
    var q, r := a / 0x10000, a % 0x10000;
    var u := b + q;
    assert a + 0x10000 * b == 0x10000 * u + r;
    assert u == u / 0x10000 * 0x10000 + u % 0x10000;
    assert 0x10000 * u + r == 0x1_0000_0000 * (u / 0x10000) + (0x10000 * (u % 0x10000) + r);
  }

  /** The previous frame and the current one have this size. */
  ghost predicate FrameSized(e: Env, f: seq<Pixel>) {
    e.stride > 0 && |f| == e.stride * e.height
  }

  /** The source offset of row `r` of a copy: a scale of 0 keeps re-reading the first row. */
  function SourceRow(e: Env, op: Op, r: int): int
    requires op.Copy?
  {
    op.src + (if op.scale > 0 then Rows(e.stride, r) else 0)
  }

  lemma PairInside(e: Env, l: Leaf, c: int, r: int)
    requires Safe(e, l) && l.op.Copy? && e.stride > 0 && 0 <= c < Pow2(l.log2w) && 0 <= r < Pow2(l.log2h)
    ensures 0 <= SourceRow(e, l.op, r)
    ensures SourceRow(e, l.op, r) + c + 2 <= e.stride * e.height + (if l.log2w == 0 || c % 2 == 1 then 1 else 0)
  {
    RowsIsProduct(e.stride, e.height);
    assert Pow2(0) == 1;
    var row := if l.op.scale > 0 then r else 0;
    assert ReadsInside(e, l.op.src, 0, row) && ReadsInside(e, l.op.src, c, row);
    if l.log2w > 0 && c % 2 == 0 {
      assert Pow2(l.log2w) == 2 * Pow2(l.log2w - 1);
      assert ReadsInside(e, l.op.src, c + 1, row);
    }
  }

  /** Pixel (px, py) after leaf `l`, which covers it. */
  function PixelAfter(e: Env, last: seq<Pixel>, l: Leaf, px: int, py: int, before: Pixel): Pixel
    requires Safe(e, l) && FrameSized(e, last) && Covers(l, px, py)
  {
    match l.op
    case Skip => before
    case Raw(first, second) => if px == l.x && py == l.y then first else second
    case Copy(src, scale, dc) =>
      PairInside(e, l, px - l.x, py - l.y);
      RowPixel(last, SourceRow(e, l.op, py - l.y), l.log2w, scale, dc, px - l.x)
  }

  /** The frame after one leaf: covered pixels change, all others stay. */
  ghost function ApplyLeaf(e: Env, last: seq<Pixel>, l: Leaf, frame: seq<Pixel>): (f: seq<Pixel>)
    requires Safe(e, l) && FrameSized(e, last) && FrameSized(e, frame)
    ensures FrameSized(e, f)
  {
    seq(|frame|, p requires 0 <= p < |frame| =>
      if Covers(l, p % e.stride, p / e.stride) then PixelAfter(e, last, l, p % e.stride, p / e.stride, frame[p])
      else frame[p])
  }

  ghost function Apply(e: Env, last: seq<Pixel>, leaves: seq<Leaf>, frame: seq<Pixel>): (f: seq<Pixel>)
    requires AllSafe(e, leaves) && FrameSized(e, last) && FrameSized(e, frame)
    ensures FrameSized(e, f)
  {
    if leaves == [] then frame
    else ApplyLeaf(e, last, leaves[|leaves| - 1], Apply(e, last, leaves[..|leaves| - 1], frame))
  }

  lemma {:induction false} ApplyConcat(e: Env, last: seq<Pixel>, a: seq<Leaf>, b: seq<Leaf>, frame: seq<Pixel>)
    requires AllSafe(e, a) && AllSafe(e, b) && FrameSized(e, last) && FrameSized(e, frame)
    ensures AllSafe(e, a + b)
    ensures Apply(e, last, a + b, frame) == Apply(e, last, b, Apply(e, last, a, frame))
  {
    if b == [] {
      assert a + b == a;
    } else {
      assert (a + b)[..|a + b| - 1] == a + b[..|b| - 1];
      ApplyConcat(e, last, a, b[..|b| - 1], frame);
    }
  }

  /**
   * A pixel no leaf covers keeps its value; one covered once has the value its leaf gives it, whatever the others do.
   */
  lemma {:induction false} ApplyAt(e: Env, last: seq<Pixel>, leaves: seq<Leaf>, frame: seq<Pixel>, p: nat)
    requires AllSafe(e, leaves) && FrameSized(e, last) && FrameSized(e, frame) && p < |frame|
    ensures Cover(leaves, p % e.stride, p / e.stride) == 0 ==> Apply(e, last, leaves, frame)[p] == frame[p]
    ensures Cover(leaves, p % e.stride, p / e.stride) == 1 ==>
              exists k :: 0 <= k < |leaves| && Covers(leaves[k], p % e.stride, p / e.stride)
                && Apply(e, last, leaves, frame)[p]
                == PixelAfter(e, last, leaves[k], p % e.stride, p / e.stride, frame[p])
  {
    if leaves != [] {
      var n := |leaves| - 1;
      ApplyAt(e, last, leaves[..n], frame, p);
      var px, py := p % e.stride, p / e.stride;
      if Cover(leaves, px, py) == 1 {
        if Covers(leaves[n], px, py) {
          assert Cover(leaves[..n], px, py) == 0;
        } else {
          var k :| 0 <= k < n && Covers(leaves[..n][k], px, py)
            && Apply(e, last, leaves[..n], frame)[p] == PixelAfter(e, last, leaves[..n][k], px, py, frame[p]);
          assert leaves[k] == leaves[..n][k];
        }
      }
    }
  }

  lemma Coordinates(stride: nat, height: nat, p: nat)
    requires stride > 0 && p < stride * height
    ensures 0 <= p % stride < stride && 0 <= p / stride < height
  {
    var y := p / stride;
    assert p == stride * y + p % stride;
    TimesGrows(stride, y, height);
  }

  lemma TimesGrows(a: nat, b: int, c: int)
    ensures b >= c ==> a * b >= a * c
  {
  }

  /**
   * After a P frame decodes without error, every pixel has the value given to it by one leaf, computed from the
   * previous frame and the streams only; leaves of type 3 keep what the buffer held.
   */
  lemma FrameMeaning(e: Env, cur: Cursor, last: seq<Pixel>, frame: seq<Pixel>, p: nat)
    requires Blocked(e, 0, 0) && FrameSized(e, last) && FrameSized(e, frame) && p < |frame|
    requires Frame(e, cur, 0, 0).Done?
    ensures AllSafe(e, Frame(e, cur, 0, 0).leaves)
    ensures var leaves := Frame(e, cur, 0, 0).leaves;
            exists k :: 0 <= k < |leaves| && Covers(leaves[k], p % e.stride, p / e.stride)
              && Apply(e, last, leaves, frame)[p]
              == PixelAfter(e, last, leaves[k], p % e.stride, p / e.stride, frame[p])
  {
    hide Frame, Apply, Cover, Covers, PixelAfter, Safe;
    var px, py := p % e.stride, p / e.stride;
    FrameTiles(e, cur, 0, 0, px, py);
    Coordinates(e.stride, e.height, p);
    ApplyAt(e, last, Frame(e, cur, 0, 0).leaves, frame, p);
  }
}
