/**
 * P frames of libavcodec/4xm.c written down and read back: a block is a tree of splits and leaves, laid down as the
 * codes of its types, motion bytes and words. decode_p_frame reads the trees back and draws what they mean.
 */
module FourXmRoundTrip {
  import opened Basics
  import opened FourXmBlocks

  /** A block: two halves, or a leaf and what it is drawn from. Keep and Still are one type, read by the version. */
  datatype Tree = Halves(down: bool, first: Tree, second: Tree)
                | Motion(byte: Byte)
                | MotionPlus(byte: Byte, add: Pixel)
                | Fill(color: Pixel)
                | Keep
                | Still
                | Two(one: Pixel, other: Pixel)

  // ---- writing ------------------------------------------------------------------------------------------------------

  function TypeNumber(t: Tree): (n: nat)
    ensures n < 7
  {
    match t
    case Halves(down, _, _) => if down then 1 else 2
    case Motion(_) => 0
    case MotionPlus(_, _) => 4
    case Fill(_) => 5
    case Keep => 3
    case Still => 3
    case Two(_, _) => 6
  }

  /** The `n` low bits of `v`, most significant first. */
  function CodeBits(v: nat, n: nat): (s: seq<int>)
    ensures |s| == n
  {
    if n == 0 then [] else CodeBits(v / 2, n - 1) + [v % 2]
  }

  /** A word as its two bytes, low byte first. */
  function WordBytes(w: Pixel): seq<Byte> {
    var v: int := w;
    [v % 256, v / 256]
  }

  function TypeBits(version: int, t: Tree, log2w: nat, log2h: nat): seq<int>
    requires Shape(log2w, log2h)
  {
    var (code, length) := Table(version, SizeToIndex(log2h, log2w))[TypeNumber(t)];
    CodeBits(code, length)
  }

  /** The shape of a half. */
  ghost predicate Halved(t: Tree, log2w: nat, log2h: nat) {
    t.Halves? ==> if t.down then log2h > 0 && Shape(log2w, log2h - 1) else log2w > 0 && Shape(log2w - 1, log2h)
  }

  ghost function BitsOf(version: int, t: Tree, log2w: nat, log2h: nat): seq<int>
    requires Shape(log2w, log2h)
    decreases t
  {
    TypeBits(version, t, log2w, log2h)
    + if !t.Halves? || !Halved(t, log2w, log2h) then []
      else if t.down then BitsOf(version, t.first, log2w, log2h - 1) + BitsOf(version, t.second, log2w, log2h - 1)
      else BitsOf(version, t.first, log2w - 1, log2h) + BitsOf(version, t.second, log2w - 1, log2h)
  }

  function BytesOf(t: Tree): seq<Byte> {
    match t
    case Halves(_, first, second) => BytesOf(first) + BytesOf(second)
    case Motion(byte) => [byte]
    case MotionPlus(byte, _) => [byte]
    case _ => []
  }

  function WordsOf(t: Tree): seq<Byte> {
    match t
    case Halves(_, first, second) => WordsOf(first) + WordsOf(second)
    case MotionPlus(_, add) => WordBytes(add)
    case Fill(color) => WordBytes(color)
    case Two(one, other) => WordBytes(one) + WordBytes(other)
    case _ => []
  }

  // ---- meaning ------------------------------------------------------------------------------------------------------

  /** The block moved by `v` still comes from inside the previous frame. */
  ghost predicate Comes(e: Env, x: int, y: int, v: int, log2w: nat, log2h: nat) {
    0 <= Off(e, x, y) + v <= LastStart(e, log2w, log2h)
  }

  /** The tree can stand for the block of this shape at (x, y). */
  ghost predicate Fits(e: Env, t: Tree, x: int, y: int, log2w: int, log2h: int)
    requires WellFormed(e)
    decreases t
  {
    && Inside(e, x, y, log2w, log2h) && Halved(t, log2w, log2h)
    && match t
       case Halves(down, first, second) =>
         if down then Fits(e, first, x, y, log2w, log2h - 1)
                      && Fits(e, second, x, y + Pow2(log2h - 1), log2w, log2h - 1)
         else Fits(e, first, x, y, log2w - 1, log2h) && Fits(e, second, x + Pow2(log2w - 1), y, log2w - 1, log2h)
       case Motion(byte) => Comes(e, x, y, e.mv[byte], log2w, log2h)
       case MotionPlus(byte, _) => Comes(e, x, y, e.mv[byte], log2w, log2h)
       case Fill(_) => true
       case Keep => e.version >= 2
       case Still => e.version < 2
       case Two(_, _) => log2w + log2h == 1
  }

  function LeafOp(e: Env, t: Tree, x: int, y: int): Op
    requires WellFormed(e) && !t.Halves?
  {
    match t
    case Motion(byte) => Copy(Off(e, x, y) + e.mv[byte], 1, 0)
    case MotionPlus(byte, add) => Copy(Off(e, x, y) + e.mv[byte], 1, add)
    case Fill(color) => Copy(Off(e, x, y), 0, color)
    case Keep => Skip
    case Still => Copy(Off(e, x, y), 1, 0)
    case Two(one, other) => Raw(one, other)
  }

  ghost function LeavesOf(e: Env, t: Tree, x: int, y: int, log2w: int, log2h: int): seq<Leaf>
    requires WellFormed(e) && Fits(e, t, x, y, log2w, log2h)
    decreases t
  {
    if !t.Halves? then [Leaf(x, y, log2w, log2h, LeafOp(e, t, x, y))]
    else if t.down then
      LeavesOf(e, t.first, x, y, log2w, log2h - 1)
      + LeavesOf(e, t.second, x, y + Pow2(log2h - 1), log2w, log2h - 1)
    else
      LeavesOf(e, t.first, x, y, log2w - 1, log2h)
      + LeavesOf(e, t.second, x + Pow2(log2w - 1), y, log2w - 1, log2h)
  }

  // ---- reading back -------------------------------------------------------------------------------------------------

  /** The piece of a stream at `at`. */
  predicate Holds<T(==)>(stream: seq<T>, at: nat, piece: seq<T>) {
    at + |piece| <= |stream| && stream[at..at + |piece|] == piece
  }

  lemma HoldsParts<T>(stream: seq<T>, at: nat, a: seq<T>, b: seq<T>)
    requires Holds(stream, at, a + b)
    ensures Holds(stream, at, a) && Holds(stream, at + |a|, b)
  {
    var s := stream[at..at + |a + b|];
    assert stream[at..at + |a|] == s[..|a|] == a;
    assert stream[at + |a|..at + |a| + |b|] == s[|a|..] == b;
  }

  /** The streams at a cursor hold what the tree is written as. */
  ghost predicate Written(e: Env, cur: Cursor, t: Tree, log2w: nat, log2h: nat)
    requires Shape(log2w, log2h)
  {
    && Holds(e.bits, cur.bit, BitsOf(e.version, t, log2w, log2h))
    && Holds(e.bytes, cur.byte, BytesOf(t)) && Holds(e.words, cur.word, WordsOf(t))
  }

  ghost function Past(e: Env, cur: Cursor, t: Tree, log2w: nat, log2h: nat): Cursor
    requires Shape(log2w, log2h)
  {
    Cursor(cur.bit + |BitsOf(e.version, t, log2w, log2h)|, cur.byte + |BytesOf(t)|, cur.word + |WordsOf(t)|)
  }

  /** The first `n` bits from `pos` on as a number. */
  function FirstBits(e: Env, pos: nat, n: nat): nat
    requires WellFormed(e)
  {
    if n == 0 then 0 else 2 * FirstBits(e, pos, n - 1) + BitAt(e, pos + n - 1)
  }

  lemma {:induction false} CodeRead(e: Env, pos: nat, v: nat, n: nat)
    requires WellFormed(e) && v < Pow2(n) && Holds(e.bits, pos, CodeBits(v, n))
    ensures FirstBits(e, pos, n) == v
    decreases n
  {
    if n > 0 {
      HoldsParts(e.bits, pos, CodeBits(v / 2, n - 1), [v % 2]);
      CodeRead(e, pos, v / 2, n - 1);
      assert e.bits[pos + n - 1] == e.bits[pos + n - 1..pos + n][0];
    }
  }

  lemma {:induction false} MoreBits(e: Env, pos: nat, n: nat, k: nat)
    requires WellFormed(e)
    ensures FirstBits(e, pos, n) * Pow2(k) <= FirstBits(e, pos, n + k) < (FirstBits(e, pos, n) + 1) * Pow2(k)
    decreases k
  {
    if k > 0 {
      MoreBits(e, pos, n, k - 1);
      hide BitAt;
      Doubling(FirstBits(e, pos, n), Pow2(k - 1), FirstBits(e, pos, n + k - 1), BitAt(e, pos + n + k - 1));
    }
  }

  lemma Doubling(f: nat, p: nat, g: nat, bit: nat)
    requires f * p <= g < (f + 1) * p && bit <= 1
    ensures f * (2 * p) <= 2 * g + bit < (f + 1) * (2 * p)
  {
    assert f * (2 * p) == 2 * (f * p) && (f + 1) * (2 * p) == 2 * ((f + 1) * p);
  }

  lemma WindowIsFirst(e: Env, pos: nat)
    requires WellFormed(e)
    ensures Window(e, pos) == FirstBits(e, pos, 5)
  {
    hide BitAt;
    assert FirstBits(e, pos, 0) == 0;
    assert FirstBits(e, pos, 1) == BitAt(e, pos);
    assert FirstBits(e, pos, 2) == 2 * FirstBits(e, pos, 1) + BitAt(e, pos + 1);
    assert FirstBits(e, pos, 3) == 2 * FirstBits(e, pos, 2) + BitAt(e, pos + 2);
    assert FirstBits(e, pos, 4) == 2 * FirstBits(e, pos, 3) + BitAt(e, pos + 3);
  }

  /** Whatever follows, a window that starts with the bits of a code lies in the range of that code. */
  lemma WindowStarts(e: Env, pos: nat, v: nat, n: nat)
    requires WellFormed(e) && 1 <= n <= 5 && v < Pow2(n) && Holds(e.bits, pos, CodeBits(v, n))
    ensures v * Pow2(5 - n) <= Window(e, pos) < (v + 1) * Pow2(5 - n)
  {
    CodeRead(e, pos, v, n);
    MoreBits(e, pos, n, 5 - n);
    WindowIsFirst(e, pos);
  }

  /** The tables code every type a tree may have at a shape. */
  lemma TypeCoded(version: int, t: Tree, log2w: nat, log2h: nat)
    requires Shape(log2w, log2h) && Halved(t, log2w, log2h) && (t.Two? ==> log2w + log2h == 1)
    ensures var index := SizeToIndex(log2h, log2w);
            index < 4
            && var (code, length) := Table(version, index)[TypeNumber(t)];
               1 <= length <= 5 && code < Pow2(length)
  {
    Powers();
    assert Pow2(5) == 32;
  }

  /** A written type is read back as itself, and as long as it is. */
  lemma TypeReadsBack(e: Env, pos: nat, t: Tree, log2w: nat, log2h: nat)
    requires WellFormed(e) && Shape(log2w, log2h) && Halved(t, log2w, log2h) && (t.Two? ==> log2w + log2h == 1)
    requires Holds(e.bits, pos, TypeBits(e.version, t, log2w, log2h))
    ensures var index := SizeToIndex(log2h, log2w);
            && pos < |e.bits| && index < 4 && TypeOf(e.version, index, Window(e, pos)) == TypeNumber(t)
            && LengthOf(e.version, index, TypeNumber(t)) == |TypeBits(e.version, t, log2w, log2h)|
  {
    var index := SizeToIndex(log2h, log2w);
    TypeCoded(e.version, t, log2w, log2h);
    hide Table, TypeOf, LengthOf, SizeToIndex, CodeBits, Window;
    var (code, length) := Table(e.version, index)[TypeNumber(t)];
    WindowStarts(e, pos, code, length);
    TypesComplete(e.version, index, Window(e, pos), TypeNumber(t));
    assert Matches(Table(e.version, index), TypeNumber(t), Window(e, pos));
  }

  lemma WordReadsBack(e: Env, at: nat, w: Pixel)
    requires Holds(e.words, at, WordBytes(w))
    ensures at + 2 <= |e.words| && Word(e, at) == w
  {
    assert e.words[at] == e.words[at..at + 2][0] && e.words[at + 1] == e.words[at..at + 2][1];
  }

  lemma ByteReadsBack(e: Env, at: nat, b: Byte)
    requires Holds(e.bytes, at, [b])
    ensures at < |e.bytes| && e.bytes[at] == b
  {
    assert e.bytes[at] == e.bytes[at..at + 1][0];
  }

  lemma MovedReadsBack(e: Env, cur: Cursor, t: Tree, x: int, y: int, log2w: int, log2h: int)
    requires WellFormed(e) && (t.Motion? || t.MotionPlus?) && Shape(log2w, log2h)
    requires Comes(e, x, y, e.mv[t.byte], log2w, log2h)
    requires Holds(e.bytes, cur.byte, BytesOf(t)) && Holds(e.words, cur.word, WordsOf(t))
    ensures LeafBlock(e, cur, TypeNumber(t), x, y, Off(e, x, y), log2w, log2h)
         == Done(Cursor(cur.bit, cur.byte + |BytesOf(t)|, cur.word + |WordsOf(t)|),
                 [Leaf(x, y, log2w, log2h, LeafOp(e, t, x, y))])
  {
    hide Off, LastStart, Word;
    ByteReadsBack(e, cur.byte, t.byte);
    if t.MotionPlus? { WordReadsBack(e, cur.word, t.add); }
  }

  lemma TwoReadBack(e: Env, cur: Cursor, one: Pixel, other: Pixel)
    requires Holds(e.words, cur.word, WordsOf(Two(one, other)))
    ensures cur.word + 4 <= |e.words| && Word(e, cur.word) == one && Word(e, cur.word + 2) == other
  {
    HoldsParts(e.words, cur.word, WordBytes(one), WordBytes(other));
    hide Holds, Word;
    WordReadsBack(e, cur.word, one);
    WordReadsBack(e, cur.word + |WordBytes(one)|, other);
  }

  lemma StayReadsBack(e: Env, cur: Cursor, t: Tree, x: int, y: int, log2w: int, log2h: int)
    requires WellFormed(e) && (t.Fill? || t.Keep? || t.Still? || t.Two?) && Shape(log2w, log2h)
    requires (t.Keep? ==> e.version >= 2) && (t.Still? ==> e.version < 2)
    requires 0 <= Off(e, x, y) <= LastStart(e, log2w, log2h) && Holds(e.words, cur.word, WordsOf(t))
    ensures LeafBlock(e, cur, TypeNumber(t), x, y, Off(e, x, y), log2w, log2h)
         == Done(Cursor(cur.bit, cur.byte + |BytesOf(t)|, cur.word + |WordsOf(t)|),
                 [Leaf(x, y, log2w, log2h, LeafOp(e, t, x, y))])
  {
    hide Off, LastStart, Word;
    if t.Two? { TwoReadBack(e, cur, t.one, t.other); }
    if t.Fill? { WordReadsBack(e, cur.word, t.color); }
  }

  /** A leaf's type is followed by its motion byte and its words. */
  lemma LeafReadsBack(e: Env, cur: Cursor, t: Tree, x: int, y: int, log2w: int, log2h: int)
    requires WellFormed(e) && !t.Halves? && Fits(e, t, x, y, log2w, log2h)
    requires Holds(e.bytes, cur.byte, BytesOf(t)) && Holds(e.words, cur.word, WordsOf(t))
    ensures LeafBlock(e, cur, TypeNumber(t), x, y, Off(e, x, y), log2w, log2h)
         == Done(Cursor(cur.bit, cur.byte + |BytesOf(t)|, cur.word + |WordsOf(t)|),
                 [Leaf(x, y, log2w, log2h, LeafOp(e, t, x, y))])
  {
    hide Off, LastStart, Holds, LeafBlock, LeafOp, BytesOf, WordsOf, Pow2;
    if t.Motion? || t.MotionPlus? {
      MovedReadsBack(e, cur, t, x, y, log2w, log2h);
    } else {
      OwnOffsetFits(e, x, y, log2w, log2h);
      StayReadsBack(e, cur, t, x, y, log2w, log2h);
    }
  }

  /** decode_p_block reads a written tree back: its leaves, in order, to the last bit, byte and word. */
  lemma {:induction false} BlockReadsBack(e: Env, cur: Cursor, t: Tree, x: int, y: int, log2w: int, log2h: int)
    requires WellFormed(e) && Fits(e, t, x, y, log2w, log2h) && Written(e, cur, t, log2w, log2h)
    ensures Block(e, cur, x, y, Off(e, x, y), log2w, log2h)
         == Done(Past(e, cur, t, log2w, log2h), LeavesOf(e, t, x, y, log2w, log2h))
    decreases t
  {
    hide Block, Holds, TypeBits, LeafBlock, Off, TypeOf, LengthOf, Window;
    var head := TypeBits(e.version, t, log2w, log2h);
    if !t.Halves? {
      assert head + [] == head;
      TypeReadsBack(e, cur.bit, t, log2w, log2h);
      BlockUnfold(e, cur, x, y, Off(e, x, y), log2w, log2h);
      LeafReadsBack(e, cur.(bit := cur.bit + |head|), t, x, y, log2w, log2h);
    } else {
      HalvesReadBack(e, cur, t, x, y, log2w, log2h);
    }
  }

  /** A split is written as its type and its halves, one after the other. */
  lemma HalvesWritten(e: Env, cur: Cursor, t: Tree, log2w: nat, log2h: nat, w: nat, h: nat)
    requires Shape(log2w, log2h) && t.Halves? && Shape(w, h) && Written(e, cur, t, log2w, log2h)
    requires if t.down then log2h > 0 && (w, h) == (log2w, log2h - 1) else log2w > 0 && (w, h) == (log2w - 1, log2h)
    ensures var head := TypeBits(e.version, t, log2w, log2h);
            var c := cur.(bit := cur.bit + |head|);
            var mid := Past(e, c, t.first, w, h);
            && Holds(e.bits, cur.bit, head) && Written(e, c, t.first, w, h) && Written(e, mid, t.second, w, h)
            && Past(e, mid, t.second, w, h) == Past(e, cur, t, log2w, log2h)
  {
    hide Holds, TypeBits;
    var head := TypeBits(e.version, t, log2w, log2h);
    var a, b := BitsOf(e.version, t.first, w, h), BitsOf(e.version, t.second, w, h);
    assert BitsOf(e.version, t, log2w, log2h) == head + (a + b);
    HoldsParts(e.bits, cur.bit, head, a + b);
    HoldsParts(e.bits, cur.bit + |head|, a, b);
    HoldsParts(e.bytes, cur.byte, BytesOf(t.first), BytesOf(t.second));
    HoldsParts(e.words, cur.word, WordsOf(t.first), WordsOf(t.second));
  }

  lemma {:induction false} HalvesReadBack(e: Env, cur: Cursor, t: Tree, x: int, y: int, log2w: int, log2h: int)
    requires WellFormed(e) && t.Halves? && Fits(e, t, x, y, log2w, log2h) && Written(e, cur, t, log2w, log2h)
    ensures Block(e, cur, x, y, Off(e, x, y), log2w, log2h)
         == Done(Past(e, cur, t, log2w, log2h), LeavesOf(e, t, x, y, log2w, log2h))
    decreases t, 0
  {
    hide Block, Holds, TypeBits, LeafBlock, TypeOf, LengthOf, Window, Rows, Off, Pow2, SizeToIndex, Comes, LeafOp,
        Written, Past, BitsOf, BytesOf, WordsOf;
    var (w, h) := if t.down then (log2w, log2h - 1) else (log2w - 1, log2h);
    HalvesWritten(e, cur, t, log2w, log2h, w, h);
    TypeReadsBack(e, cur.bit, t, log2w, log2h);
    BlockUnfold(e, cur, x, y, Off(e, x, y), log2w, log2h);
    var c := cur.(bit := cur.bit + |TypeBits(e.version, t, log2w, log2h)|);
    BlockReadsBack(e, c, t.first, x, y, w, h);
    var mid := Past(e, c, t.first, w, h);
    if t.down {
      HalfOffsets(e, x, y, Off(e, x, y), Pow2(h));
      BlockReadsBack(e, mid, t.second, x, y + Pow2(h), w, h);
    } else {
      HalfOffsets(e, x, y, Off(e, x, y), Pow2(w));
      BlockReadsBack(e, mid, t.second, x + Pow2(w), y, w, h);
    }
  }

  // ---- the pixels a tree stands for ---------------------------------------------------------------------------------

  /** Where the pixel a moved pixel comes from lies, and the one before it in its pair. */
  lemma MovedInside(e: Env, x: int, y: int, v: int, log2w: int, log2h: int, px: int, py: int)
    requires WellFormed(e) && Inside(e, x, y, log2w, log2h) && Comes(e, x, y, v, log2w, log2h)
    requires InRect(px, py, x, y, Pow2(log2w), Pow2(log2h))
    ensures 0 <= Off(e, px, py) + v < e.stride * e.height
    ensures (px - x) % 2 == 1 ==> 0 <= Off(e, px, py) + v - 1
    ensures Off(e, px, py) == Off(e, x, y) + Rows(e.stride, py - y) + (px - x)
  {
    hide Rows, Pow2, LastStart;
    RowsAdd(e.stride, y, py - y);
    RowsIsProduct(e.stride, e.height);
    CopyStaysInside(e, Off(e, x, y) + v, log2w, log2h, px - x, py - y);
  }

  /** A pixel plus a constant, and plus the carry of the pixel before it if both are a pair. */
  function Plus(last: seq<Pixel>, at: int, add: Pixel, second: bool): Pixel
    requires 0 <= at < |last| && (second ==> at > 0)
  {
    var v: int, d: int := last[at], add;
    if second then
      var before: int := last[at - 1];
      (v + d + (before + d) / 0x10000) % 0x10000
    else (v + d) % 0x10000
  }

  /**
   * Pixel (px, py) of the block: the previous frame's pixel moved, with a constant, the constant, itself, or a raw one.
   */
  ghost function Shows(e: Env, last: seq<Pixel>, frame: seq<Pixel>, t: Tree, x: int, y: int, log2w: int, log2h: int,
                       px: int, py: int): Pixel
    requires WellFormed(e) && FrameSized(e, last) && FrameSized(e, frame)
    requires Fits(e, t, x, y, log2w, log2h) && InRect(px, py, x, y, Pow2(log2w), Pow2(log2h))
    decreases t
  {
    OwnPixel(e, x, y, log2w, log2h, px, py);
    match t
    case Halves(down, first, second) =>
      if down then
        if py < y + Pow2(log2h - 1) then Shows(e, last, frame, first, x, y, log2w, log2h - 1, px, py)
        else Shows(e, last, frame, second, x, y + Pow2(log2h - 1), log2w, log2h - 1, px, py)
      else
        if px < x + Pow2(log2w - 1) then Shows(e, last, frame, first, x, y, log2w - 1, log2h, px, py)
        else Shows(e, last, frame, second, x + Pow2(log2w - 1), y, log2w - 1, log2h, px, py)
    case Motion(byte) =>
      MovedInside(e, x, y, e.mv[byte], log2w, log2h, px, py);
      last[Off(e, px, py) + e.mv[byte]]
    case MotionPlus(byte, add) =>
      MovedInside(e, x, y, e.mv[byte], log2w, log2h, px, py);
      Plus(last, Off(e, px, py) + e.mv[byte], add, log2w > 0 && (px - x) % 2 == 1)
    case Fill(color) => color
    case Keep => frame[Off(e, px, py)]
    case Still => last[Off(e, px, py)]
    case Two(one, other) => if px == x && py == y then one else other
  }

  lemma OwnPixel(e: Env, x: int, y: int, log2w: int, log2h: int, px: int, py: int)
    requires WellFormed(e) && Inside(e, x, y, log2w, log2h) && InRect(px, py, x, y, Pow2(log2w), Pow2(log2h))
    ensures 0 <= Off(e, px, py) < e.stride * e.height
  {
    OwnOffsetFits(e, x, y, log2w, log2h);
    MovedInside(e, x, y, 0, log2w, log2h, px, py);
  }

  lemma LeafSafe(e: Env, t: Tree, x: int, y: int, log2w: int, log2h: int)
    requires WellFormed(e) && !t.Halves? && Fits(e, t, x, y, log2w, log2h)
    ensures Safe(e, Leaf(x, y, log2w, log2h, LeafOp(e, t, x, y)))
  {
    OwnOffsetFits(e, x, y, log2w, log2h);
    var op := LeafOp(e, t, x, y);
    if op.Copy? {
      forall c, r | 0 <= c < Pow2(log2w) && 0 <= r < Pow2(log2h) ensures ReadsInside(e, op.src, c, r) {
        CopyStaysInside(e, op.src, log2w, log2h, c, r);
      }
    }
  }

  lemma LonePlus(v: int, d: int)
    ensures (1 * v + d * 0x10001) % 0x10000 == (v + d) % 0x10000
  {
    assert 1 * v + d * 0x10001 == (v + d) + 0x10000 * d;
    ModShift(v + d, d);
  }

  lemma ModShift(a: int, b: int)
    ensures (a + 0x10000 * b) % 0x10000 == a % 0x10000
  {
  }

  lemma PlusIs(last: seq<Pixel>, s: int, log2w: nat, add: Pixel, c: nat)
    requires 0 <= s && s + c + 2 <= |last| + (if log2w == 0 || c % 2 == 1 then 1 else 0)
    ensures RowPixel(last, s, log2w, 1, add, c) == Plus(last, s + c, add, log2w > 0 && c % 2 == 1)
  {
    if log2w == 0 {
      LonePlus(last[s + c], add);
    } else {
      hide RowPixel;
      var k := if c % 2 == 0 then c else c - 1;
      assert k % 2 == 0;
      CopyPlusConstant(last, s, log2w, add, k);
    }
  }

  /** A moved pixel with a constant, as the leaf computes it. */
  lemma CopyPixel(e: Env, last: seq<Pixel>, l: Leaf, v: int, px: int, py: int, before: Pixel)
    requires WellFormed(e) && FrameSized(e, last) && Safe(e, l) && l.op.Copy? && l.op.scale == 1
    requires InRect(px, py, l.x, l.y, Pow2(l.log2w), Pow2(l.log2h)) && l.op.src == Off(e, l.x, l.y) + v
    requires Comes(e, l.x, l.y, v, l.log2w, l.log2h)
    ensures var at, second := Off(e, px, py) + v, l.log2w > 0 && (px - l.x) % 2 == 1;
            && 0 <= at < |last| && (second ==> at > 0)
            && PixelAfter(e, last, l, px, py, before) == Plus(last, at, l.op.dc, second)
            && (l.op.dc == 0 ==> PixelAfter(e, last, l, px, py, before) == last[at])
  {
    hide LastStart, RowPixel, Plus, Off, Rows, Pow2, ReadsInside, SourceRow;
    PairInside(e, l, px - l.x, py - l.y);
    MovedInside(e, l.x, l.y, v, l.log2w, l.log2h, px, py);
    hide Safe, Comes, FrameSized;
    var s := SourceRow(e, l.op, py - l.y);
    assert s + (px - l.x) == Off(e, px, py) + v by { StraightRows(e, l, v, px, py); }
    PlusIs(last, s, l.log2w, l.op.dc, px - l.x);
    CopyAndFill(last, s, l.log2w, 0, px - l.x);
  }

  lemma StraightRows(e: Env, l: Leaf, v: int, px: int, py: int)
    requires WellFormed(e) && l.op.Copy? && l.op.scale == 1 && l.op.src == Off(e, l.x, l.y) + v && 0 <= l.y <= py
    ensures SourceRow(e, l.op, py - l.y) + (px - l.x) == Off(e, px, py) + v
  {
    RowsAdd(e.stride, l.y, py - l.y);
  }

  lemma MovedShows(e: Env, last: seq<Pixel>, frame: seq<Pixel>, t: Tree, x: int, y: int, log2w: int, log2h: int,
                   px: int, py: int, before: Pixel)
    requires WellFormed(e) && FrameSized(e, last) && FrameSized(e, frame) && !t.Halves?
    requires Fits(e, t, x, y, log2w, log2h) && InRect(px, py, x, y, Pow2(log2w), Pow2(log2h))
    requires 0 <= Off(e, px, py) < |frame| && before == frame[Off(e, px, py)]
    requires t.Motion? || t.MotionPlus? || t.Still?
    ensures var l := Leaf(x, y, log2w, log2h, LeafOp(e, t, x, y));
            Safe(e, l) && Covers(l, px, py)
            && PixelAfter(e, last, l, px, py, before) == Shows(e, last, frame, t, x, y, log2w, log2h, px, py)
  {
    LeafSafe(e, t, x, y, log2w, log2h);
    OwnOffsetFits(e, x, y, log2w, log2h);
    var l := Leaf(x, y, log2w, log2h, LeafOp(e, t, x, y));
    var v := if t.Still? then 0 else e.mv[t.byte];
    hide Safe, LastStart, RowPixel, Plus, Off, Rows, Pow2, ReadsInside, SourceRow, PixelAfter;
    CopyPixel(e, last, l, v, px, py, before);
  }

  lemma FillShows(e: Env, last: seq<Pixel>, frame: seq<Pixel>, t: Tree, x: int, y: int, log2w: int, log2h: int,
                  px: int, py: int, before: Pixel)
    requires WellFormed(e) && FrameSized(e, last) && FrameSized(e, frame) && !t.Halves?
    requires Fits(e, t, x, y, log2w, log2h) && InRect(px, py, x, y, Pow2(log2w), Pow2(log2h))
    requires 0 <= Off(e, px, py) < |frame| && before == frame[Off(e, px, py)]
    requires t.Fill?
    ensures var l := Leaf(x, y, log2w, log2h, LeafOp(e, t, x, y));
            Safe(e, l) && Covers(l, px, py)
            && PixelAfter(e, last, l, px, py, before) == Shows(e, last, frame, t, x, y, log2w, log2h, px, py)
  {
    LeafSafe(e, t, x, y, log2w, log2h);
    var l := Leaf(x, y, log2w, log2h, LeafOp(e, t, x, y));
    hide Safe, LastStart, RowPixel, Off, Rows, Pow2, ReadsInside, SourceRow;
    PairInside(e, l, px - x, py - y);
    CopyAndFill(last, SourceRow(e, l.op, py - y), log2w, t.color, px - x);
  }

  lemma GivenShows(e: Env, last: seq<Pixel>, frame: seq<Pixel>, t: Tree, x: int, y: int, log2w: int, log2h: int,
                   px: int, py: int, before: Pixel)
    requires WellFormed(e) && FrameSized(e, last) && FrameSized(e, frame) && !t.Halves?
    requires Fits(e, t, x, y, log2w, log2h) && InRect(px, py, x, y, Pow2(log2w), Pow2(log2h))
    requires 0 <= Off(e, px, py) < |frame| && before == frame[Off(e, px, py)]
    requires t.Keep? || t.Two?
    ensures var l := Leaf(x, y, log2w, log2h, LeafOp(e, t, x, y));
            Safe(e, l) && Covers(l, px, py)
            && PixelAfter(e, last, l, px, py, before) == Shows(e, last, frame, t, x, y, log2w, log2h, px, py)
  {
    LeafSafe(e, t, x, y, log2w, log2h);
    assert Pow2(0) == 1 && Pow2(1) == 2;
    hide LastStart, Off, Rows, ReadsInside;
  }

  /** What a leaf of the tree does to a pixel of its block. */
  lemma LeafShows(e: Env, last: seq<Pixel>, frame: seq<Pixel>, t: Tree, x: int, y: int, log2w: int, log2h: int,
                  px: int, py: int, before: Pixel)
    requires WellFormed(e) && FrameSized(e, last) && FrameSized(e, frame) && !t.Halves?
    requires Fits(e, t, x, y, log2w, log2h) && InRect(px, py, x, y, Pow2(log2w), Pow2(log2h))
    requires 0 <= Off(e, px, py) < |frame| && before == frame[Off(e, px, py)]
    ensures var l := Leaf(x, y, log2w, log2h, LeafOp(e, t, x, y));
            Safe(e, l) && Covers(l, px, py)
            && PixelAfter(e, last, l, px, py, before) == Shows(e, last, frame, t, x, y, log2w, log2h, px, py)
  {
    hide Safe, Covers, PixelAfter, Shows, Fits, Off, Rows, Pow2, LeafOp;
    match t
    case Fill(_) => FillShows(e, last, frame, t, x, y, log2w, log2h, px, py, before);
    case Keep => GivenShows(e, last, frame, t, x, y, log2w, log2h, px, py, before);
    case Two(_, _) => GivenShows(e, last, frame, t, x, y, log2w, log2h, px, py, before);
    case _ => MovedShows(e, last, frame, t, x, y, log2w, log2h, px, py, before);
  }

  lemma PixelAt(e: Env, p: nat)
    requires WellFormed(e) && p < e.stride * e.height
    ensures Off(e, p % e.stride, p / e.stride) == p && 0 <= p % e.stride < e.stride && 0 <= p / e.stride < e.height
  {
    Coordinates(e.stride, e.height, p);
    RowsIsProduct(e.stride, p / e.stride);
  }

  lemma {:induction false} TreeSafe(e: Env, t: Tree, x: int, y: int, log2w: int, log2h: int)
    requires WellFormed(e) && Fits(e, t, x, y, log2w, log2h)
    ensures AllSafe(e, LeavesOf(e, t, x, y, log2w, log2h))
    decreases t
  {
    hide Safe, LastStart;
    if !t.Halves? {
      LeafSafe(e, t, x, y, log2w, log2h);
    } else if t.down {
      TreeSafe(e, t.first, x, y, log2w, log2h - 1);
      TreeSafe(e, t.second, x, y + Pow2(log2h - 1), log2w, log2h - 1);
    } else {
      TreeSafe(e, t.first, x, y, log2w - 1, log2h);
      TreeSafe(e, t.second, x + Pow2(log2w - 1), y, log2w - 1, log2h);
    }
  }

  lemma OneLeaf(e: Env, last: seq<Pixel>, frame: seq<Pixel>, t: Tree, x: int, y: int, log2w: int, log2h: int, p: nat)
    requires WellFormed(e) && FrameSized(e, last) && FrameSized(e, frame) && p < |frame| && !t.Halves?
    requires Fits(e, t, x, y, log2w, log2h)
    ensures AllSafe(e, LeavesOf(e, t, x, y, log2w, log2h))
    ensures var px, py := p % e.stride, p / e.stride;
            Apply(e, last, LeavesOf(e, t, x, y, log2w, log2h), frame)[p]
            == if InRect(px, py, x, y, Pow2(log2w), Pow2(log2h))
               then Shows(e, last, frame, t, x, y, log2w, log2h, px, py) else frame[p]
  {
    hide LastStart, RowPixel, Plus, PixelAfter, Off, Rows, Shows, Safe;
    var px, py := p % e.stride, p / e.stride;
    PixelAt(e, p);
    LeafSafe(e, t, x, y, log2w, log2h);
    var l := Leaf(x, y, log2w, log2h, LeafOp(e, t, x, y));
    assert LeavesOf(e, t, x, y, log2w, log2h) == [l] && [l][..0] == [];
    assert Apply(e, last, [], frame) == frame;
    if InRect(px, py, x, y, Pow2(log2w), Pow2(log2h)) {
      LeafShows(e, last, frame, t, x, y, log2w, log2h, px, py, frame[p]);
    } else {
      assert Pow2(0) == 1 && Pow2(1) == 2;
      assert !Covers(l, px, py);
    }
  }

  /** A block shows the same pixel whatever the frame held elsewhere. */
  lemma {:induction false} ShowsFrom(e: Env, last: seq<Pixel>, a: seq<Pixel>, b: seq<Pixel>, t: Tree, x: int, y: int,
                                     log2w: int, log2h: int, px: int, py: int)
    requires WellFormed(e) && FrameSized(e, last) && FrameSized(e, a) && FrameSized(e, b)
    requires Fits(e, t, x, y, log2w, log2h) && InRect(px, py, x, y, Pow2(log2w), Pow2(log2h))
    requires 0 <= Off(e, px, py) < |a| && a[Off(e, px, py)] == b[Off(e, px, py)]
    ensures Shows(e, last, a, t, x, y, log2w, log2h, px, py) == Shows(e, last, b, t, x, y, log2w, log2h, px, py)
    decreases t
  {
    hide Off, LastStart, Plus;
    if t.Halves? {
      if t.down {
        if py < y + Pow2(log2h - 1) { ShowsFrom(e, last, a, b, t.first, x, y, log2w, log2h - 1, px, py); }
        else { ShowsFrom(e, last, a, b, t.second, x, y + Pow2(log2h - 1), log2w, log2h - 1, px, py); }
      } else {
        if px < x + Pow2(log2w - 1) { ShowsFrom(e, last, a, b, t.first, x, y, log2w - 1, log2h, px, py); }
        else { ShowsFrom(e, last, a, b, t.second, x + Pow2(log2w - 1), y, log2w - 1, log2h, px, py); }
      }
    }
  }

  lemma PowHalves(n: nat)
    requires n > 0
    ensures Pow2(n) == 2 * Pow2(n - 1)
  {
  }

  /** The frame with the leaves of a tree applied shows the tree inside its block and is unchanged outside. */
  lemma {:induction false} TreeShows(e: Env, last: seq<Pixel>, frame: seq<Pixel>, t: Tree, x: int, y: int,
                                     log2w: int, log2h: int, p: nat)
    requires WellFormed(e) && FrameSized(e, last) && FrameSized(e, frame) && p < |frame|
    requires Fits(e, t, x, y, log2w, log2h)
    ensures AllSafe(e, LeavesOf(e, t, x, y, log2w, log2h))
    ensures var px, py := p % e.stride, p / e.stride;
            Apply(e, last, LeavesOf(e, t, x, y, log2w, log2h), frame)[p]
            == if InRect(px, py, x, y, Pow2(log2w), Pow2(log2h))
               then Shows(e, last, frame, t, x, y, log2w, log2h, px, py) else frame[p]
    decreases t
  {
    hide Safe, LastStart, RowPixel, Plus, PixelAfter, Off, Rows, Apply, Pow2, Comes, LeafOp;
    var px, py := p % e.stride, p / e.stride;
    PixelAt(e, p);
    if !t.Halves? {
      OneLeaf(e, last, frame, t, x, y, log2w, log2h, p);
    } else {
      PowHalves(if t.down then log2h else log2w);
      var (w, h) := if t.down then (log2w, log2h - 1) else (log2w - 1, log2h);
      var x2, y2 := if t.down then x else x + Pow2(w), if t.down then y + Pow2(h) else y;
      var a, b := LeavesOf(e, t.first, x, y, w, h), LeavesOf(e, t.second, x2, y2, w, h);
      TreeShows(e, last, frame, t.first, x, y, w, h, p);
      TreeSafe(e, t.second, x2, y2, w, h);
      ApplyConcat(e, last, a, b, frame);
      var mid := Apply(e, last, a, frame);
      TreeShows(e, last, mid, t.second, x2, y2, w, h, p);
      if InRect(px, py, x2, y2, Pow2(w), Pow2(h)) {
        ShowsFrom(e, last, mid, frame, t.second, x2, y2, w, h, px, py);
      }
    }
  }

  // ---- the whole frame ----------------------------------------------------------------------------------------------

  /** One tree for each 8x8 block from (x, y) on, in raster order. */
  ghost predicate FrameFits(e: Env, ts: seq<Tree>, x: nat, y: nat)
    requires WellFormed(e)
    decreases e.height - y, e.stride - x
  {
    if y >= e.height then ts == []
    else if x >= e.stride then FrameFits(e, ts, 0, y + 8)
    else ts != [] && Fits(e, ts[0], x, y, 3, 3) && FrameFits(e, ts[1..], x + 8, y)
  }

  ghost function FrameBits(version: int, ts: seq<Tree>): seq<int> {
    if ts == [] then [] else BitsOf(version, ts[0], 3, 3) + FrameBits(version, ts[1..])
  }

  function FrameBytes(ts: seq<Tree>): seq<Byte> { if ts == [] then [] else BytesOf(ts[0]) + FrameBytes(ts[1..]) }

  function FrameWords(ts: seq<Tree>): seq<Byte> { if ts == [] then [] else WordsOf(ts[0]) + FrameWords(ts[1..]) }

  ghost function FrameLeaves(e: Env, ts: seq<Tree>, x: nat, y: nat): seq<Leaf>
    requires WellFormed(e) && FrameFits(e, ts, x, y)
    decreases e.height - y, e.stride - x
  {
    if y >= e.height then []
    else if x >= e.stride then FrameLeaves(e, ts, 0, y + 8)
    else LeavesOf(e, ts[0], x, y, 3, 3) + FrameLeaves(e, ts[1..], x + 8, y)
  }

  /** The streams at a cursor hold what the trees are written as. */
  ghost predicate FrameWritten(e: Env, cur: Cursor, ts: seq<Tree>) {
    && Holds(e.bits, cur.bit, FrameBits(e.version, ts))
    && Holds(e.bytes, cur.byte, FrameBytes(ts)) && Holds(e.words, cur.word, FrameWords(ts))
  }

  ghost function FramePast(e: Env, cur: Cursor, ts: seq<Tree>): Cursor {
    Cursor(cur.bit + |FrameBits(e.version, ts)|, cur.byte + |FrameBytes(ts)|, cur.word + |FrameWords(ts)|)
  }

  lemma {:induction false} FrameReadsBack(e: Env, cur: Cursor, ts: seq<Tree>, x: nat, y: nat)
    requires WellFormed(e) && FrameFits(e, ts, x, y) && FrameWritten(e, cur, ts)
    ensures Frame(e, cur, x, y) == Done(FramePast(e, cur, ts), FrameLeaves(e, ts, x, y))
    decreases e.height - y, e.stride - x
  {
    hide Block, Holds, BitsOf, BytesOf, WordsOf, LeavesOf, Fits;
    if y < e.height {
      if x >= e.stride {
        FrameReadsBack(e, cur, ts, 0, y + 8);
      } else {
        HoldsParts(e.bits, cur.bit, BitsOf(e.version, ts[0], 3, 3), FrameBits(e.version, ts[1..]));
        HoldsParts(e.bytes, cur.byte, BytesOf(ts[0]), FrameBytes(ts[1..]));
        HoldsParts(e.words, cur.word, WordsOf(ts[0]), FrameWords(ts[1..]));
        BlockReadsBack(e, cur, ts[0], x, y, 3, 3);
        FrameReadsBack(e, Past(e, cur, ts[0], 3, 3), ts[1..], x + 8, y);
      }
    }
  }

  /** The pixel the trees from (x, y) on show at (px, py), each its own 8x8 block. */
  ghost function FrameShows(e: Env, last: seq<Pixel>, frame: seq<Pixel>, ts: seq<Tree>, x: nat, y: nat,
                            px: int, py: int): Pixel
    requires Blocked(e, x, y) && FrameSized(e, last) && FrameSized(e, frame) && FrameFits(e, ts, x, y)
    requires Remaining(e, px, py, x, y)
    decreases e.height - y, e.stride - x
  {
    if x >= e.stride then FrameShows(e, last, frame, ts, 0, y + 8, px, py)
    else
      Powers();
      if x <= px < x + 8 && py < y + 8 then Shows(e, last, frame, ts[0], x, y, 3, 3, px, py)
      else FrameShows(e, last, frame, ts[1..], x + 8, y, px, py)
  }

  lemma ApplyNothing(e: Env, last: seq<Pixel>, frame: seq<Pixel>)
    requires FrameSized(e, last) && FrameSized(e, frame)
    ensures Apply(e, last, [], frame) == frame
  {
  }

  /** The pixels from a block on: its own, and those from the next block on. */
  lemma RemainingStep(e: Env, px: int, py: int, x: nat, y: nat)
    requires Blocked(e, x, y) && y < e.height
    ensures x >= e.stride ==> Blocked(e, 0, y + 8) && (Remaining(e, px, py, x, y) <==> Remaining(e, px, py, 0, y + 8))
    ensures x < e.stride ==>
              Blocked(e, x + 8, y)
              && (Remaining(e, px, py, x, y) <==> InRect(px, py, x, y, 8, 8) || Remaining(e, px, py, x + 8, y))
              && !(InRect(px, py, x, y, 8, 8) && Remaining(e, px, py, x + 8, y))
  {
  }

  lemma {:induction false} FrameShown(e: Env, last: seq<Pixel>, frame: seq<Pixel>, ts: seq<Tree>, x: nat, y: nat,
                                      p: nat)
    requires Blocked(e, x, y) && FrameSized(e, last) && FrameSized(e, frame) && p < |frame| && FrameFits(e, ts, x, y)
    ensures AllSafe(e, FrameLeaves(e, ts, x, y))
    ensures var px, py := p % e.stride, p / e.stride;
            Apply(e, last, FrameLeaves(e, ts, x, y), frame)[p]
            == if Remaining(e, px, py, x, y) then FrameShows(e, last, frame, ts, x, y, px, py) else frame[p]
    decreases e.height - y, e.stride - x
  {
    hide Safe, Fits, Shows, LeavesOf, Off, Apply;
    var px, py := p % e.stride, p / e.stride;
    PixelAt(e, p);
    ApplyNothing(e, last, frame);
    if y < e.height {
      RemainingStep(e, px, py, x, y);
      hide Remaining, Blocked;
      if x >= e.stride {
        FrameShown(e, last, frame, ts, 0, y + 8, p);
      } else {
        assert Pow2(3) == 8 by { Powers(); }
        var a, b := LeavesOf(e, ts[0], x, y, 3, 3), FrameLeaves(e, ts[1..], x + 8, y);
        TreeShows(e, last, frame, ts[0], x, y, 3, 3, p);
        var mid := Apply(e, last, a, frame);
        FrameShown(e, last, mid, ts[1..], x + 8, y, p);
        ApplyConcat(e, last, a, b, frame);
        if Remaining(e, px, py, x + 8, y) { FrameShowsFrom(e, last, mid, frame, ts[1..], x + 8, y, px, py); }
      }
    }
  }

  lemma {:induction false} FrameShowsFrom(e: Env, last: seq<Pixel>, a: seq<Pixel>, b: seq<Pixel>, ts: seq<Tree>,
                                          x: nat, y: nat, px: int, py: int)
    requires Blocked(e, x, y) && FrameSized(e, last) && FrameSized(e, a) && FrameSized(e, b)
    requires FrameFits(e, ts, x, y) && Remaining(e, px, py, x, y)
    requires 0 <= Off(e, px, py) < |a| && a[Off(e, px, py)] == b[Off(e, px, py)]
    ensures FrameShows(e, last, a, ts, x, y, px, py) == FrameShows(e, last, b, ts, x, y, px, py)
    decreases e.height - y, e.stride - x
  {
    hide Fits, Shows, Off;
    if x >= e.stride {
      FrameShowsFrom(e, last, a, b, ts, 0, y + 8, px, py);
    } else {
      Powers();
      if x <= px < x + 8 && py < y + 8 {
        ShowsFrom(e, last, a, b, ts[0], x, y, 3, 3, px, py);
      } else {
        FrameShowsFrom(e, last, a, b, ts[1..], x + 8, y, px, py);
      }
    }
  }

  /**
   * A written P frame is decoded, to the last bit, byte and word, and every pixel of the frame is what its tree shows.
   */
  lemma PFrameRoundTrip(e: Env, ts: seq<Tree>, last: seq<Pixel>, frame: seq<Pixel>, p: nat)
    requires Blocked(e, 0, 0) && FrameSized(e, last) && FrameSized(e, frame) && p < |frame| && FrameFits(e, ts, 0, 0)
    requires e.bits == FrameBits(e.version, ts) && e.bytes == FrameBytes(ts) && e.words == FrameWords(ts)
    ensures var o := Frame(e, Cursor(0, 0, 0), 0, 0);
            && o.Done? && o.cur == Cursor(|e.bits|, |e.bytes|, |e.words|) && AllSafe(e, o.leaves)
            && Remaining(e, p % e.stride, p / e.stride, 0, 0)
            && Apply(e, last, o.leaves, frame)[p] == FrameShows(e, last, frame, ts, 0, 0, p % e.stride, p / e.stride)
  {
    hide Apply, FrameShows, FrameFits, Frame, FrameBits, FrameLeaves;
    assert e.bits[0..0 + |e.bits|] == e.bits && e.bytes[0..0 + |e.bytes|] == e.bytes;
    assert e.words[0..0 + |e.words|] == e.words;
    FrameReadsBack(e, Cursor(0, 0, 0), ts, 0, 0);
    FrameShown(e, last, frame, ts, 0, 0, p);
    PixelAt(e, p);
  }
}
