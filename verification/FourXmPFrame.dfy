/**
 * The P frame decoder of libavcodec/4xm.c in place on `frame_buffer`: mcdc, decode_p_block and decode_p_frame, each
 * proved against the functions of FourXmBlocks.
 */
module FourXmPFrame {
  import opened Basics
  import opened FourXmBlocks

  /** Offset `p` is the pixel in column `c` of the row stretch that starts at pixel (x, y). */
  lemma OffsetIsPixel(e: Env, x: int, y: int, w: int, p: nat)
    requires e.stride > 0 && 0 <= x && x + w <= e.stride && 0 <= y
    ensures Off(e, x, y) <= p < Off(e, x, y) + w <==> p / e.stride == y && x <= p % e.stride < x + w
    ensures p / e.stride == y ==> p - Off(e, x, y) == p % e.stride - x
  {
    RowsIsProduct(e.stride, y);
    Division(e.stride, y, p);
  }

  lemma Division(stride: nat, y: int, p: nat)
    requires stride > 0 && 0 <= y
    ensures p / stride == y <==> stride * y <= p < stride * y + stride
    ensures p / stride == y ==> p % stride == p - stride * y
  {
    var q := p / stride;
    assert p == stride * q + p % stride;
    TimesGrows(stride, q, y + 1);
    TimesGrows(stride, y, q + 1);
    assert stride * (y + 1) == stride * y + stride && stride * (q + 1) == stride * q + stride;
  }

  /** An in-frame block row lies inside the buffer. */
  lemma RowInside(e: Env, x: int, y: int, w: int)
    requires 0 <= x && 0 <= w && x + w <= e.stride && 0 <= y < e.height
    ensures 0 <= Off(e, x, y) && Off(e, x, y) + w <= e.stride * e.height
  {
    RowsIsProduct(e.stride, y);
    TimesGrows(e.stride, e.height, y + 1);
    assert e.stride * (y + 1) == e.stride * y + e.stride;
  }

  /** `now` is the frame `was` after the first `rows` rows of copy leaf `l`. */
  ghost predicate RowsDone(e: Env, last: seq<Pixel>, l: Leaf, was: seq<Pixel>, now: seq<Pixel>, rows: int)
    requires Safe(e, l) && l.op.Copy? && FrameSized(e, last) && FrameSized(e, was) && FrameSized(e, now)
    requires rows <= Pow2(l.log2h)
  {
    forall p :: 0 <= p < |now| ==>
      now[p] == if InRect(p % e.stride, p / e.stride, l.x, l.y, Pow2(l.log2w), rows)
                then PixelAfter(e, last, l, p % e.stride, p / e.stride, was[p]) else was[p]
  }

  /** Row `i` written on top of the first `i` rows. */
  lemma RowStep(e: Env, last: seq<Pixel>, l: Leaf, was: seq<Pixel>, mid: seq<Pixel>, now: seq<Pixel>, i: nat, dst: nat,
                src: nat)
    requires Safe(e, l) && l.op.Copy? && FrameSized(e, last) && FrameSized(e, was) && FrameSized(e, mid)
    requires FrameSized(e, now)
    requires i < Pow2(l.log2h) && RowsDone(e, last, l, was, mid, i)
    requires dst == Off(e, l.x, l.y + i) && src == SourceRow(e, l.op, i) && src + Pow2(l.log2w) <= |last|
    requires forall p :: 0 <= p < |now| ==>
               now[p] == if dst <= p < dst + Pow2(l.log2w)
                         then RowPixel(last, src, l.log2w, l.op.scale, l.op.dc, p - dst)
                         else mid[p]
    ensures RowsDone(e, last, l, was, now, i + 1)
  {
    forall p | 0 <= p < |now|
      ensures now[p] == if InRect(p % e.stride, p / e.stride, l.x, l.y, Pow2(l.log2w), i + 1)
                        then PixelAfter(e, last, l, p % e.stride, p / e.stride, was[p]) else was[p]
    {
      OffsetIsPixel(e, l.x, l.y + i, Pow2(l.log2w), p);
    }
  }

  lemma ApplyNone(e: Env, last: seq<Pixel>, frame: seq<Pixel>)
    requires FrameSized(e, last) && FrameSized(e, frame)
    ensures Apply(e, last, [], frame) == frame
  {
  }

  lemma ApplySingle(e: Env, last: seq<Pixel>, l: Leaf, frame: seq<Pixel>)
    requires Safe(e, l) && FrameSized(e, last) && FrameSized(e, frame)
    ensures AllSafe(e, [l]) && Apply(e, last, [l], frame) == ApplyLeaf(e, last, l, frame)
  {
    assert [l][..0] == [];
    assert Apply(e, last, [l][..0], frame) == frame;
  }

  /** The frame so far holds the leaves `done`, and the outcome `goal` is what `rest` adds to them. */
  ghost predicate Rest(e: Env, last: seq<Pixel>, goal: Outcome, done: seq<Leaf>, rest: Outcome, was: seq<Pixel>,
                       now: seq<Pixel>)
    requires FrameSized(e, last) && FrameSized(e, was)
  {
    AllSafe(e, done) && now == Apply(e, last, done, was) && goal == Then(Done(Cursor(0, 0, 0), done), rest)
  }

  lemma FrameStart(e: Env, last: seq<Pixel>, goal: Outcome, was: seq<Pixel>)
    requires FrameSized(e, last) && FrameSized(e, was)
    ensures Rest(e, last, goal, [], goal, was, was)
  {
    assert [] + goal.leaves == goal.leaves;
  }

  /** One unfolding of `Frame`, on a block or at the end of a row or of the frame. */
  lemma FrameUnfold(e: Env, cur: Cursor, x: nat, y: nat)
    requires Blocked(e, x, y)
    ensures y >= e.height ==> Frame(e, cur, x, y) == Done(cur, [])
    ensures y < e.height && x >= e.stride ==> Frame(e, cur, x, y) == Frame(e, cur, 0, y + 8)
    ensures y < e.height && x < e.stride ==>
              Inside(e, x, y, 3, 3)
              && var o := Block(e, cur, x, y, Off(e, x, y), 3, 3);
                 Frame(e, cur, x, y) == if !o.Done? then o else Then(o, Frame(e, o.cur, x + 8, y))
  {
    hide Block;
    assert Pow2(3) == 8 by { Powers(); }
  }

  /** A decoded block moves from the rest to the part already done. */
  lemma FrameJoin(e: Env, last: seq<Pixel>, goal: Outcome, done: seq<Leaf>, a: Outcome, more: Outcome,
                  was: seq<Pixel>, mid: seq<Pixel>)
    requires FrameSized(e, last) && FrameSized(e, was) && a.Done? && AllSafe(e, a.leaves)
    requires Rest(e, last, goal, done, Then(a, more), was, mid)
    ensures FrameSized(e, mid) && Rest(e, last, goal, done + a.leaves, more, was, Apply(e, last, a.leaves, mid))
  {
    ApplyConcat(e, last, done, a.leaves, was);
    hide Apply, Safe;
    assert done + (a.leaves + more.leaves) == (done + a.leaves) + more.leaves;
  }

  /** An error in a block ends the frame there. */
  lemma FrameBreak(e: Env, last: seq<Pixel>, goal: Outcome, done: seq<Leaf>, a: Outcome, was: seq<Pixel>,
                   mid: seq<Pixel>)
    requires FrameSized(e, last) && FrameSized(e, was) && a.Bad? && AllSafe(e, a.leaves)
    requires Rest(e, last, goal, done, a, was, mid)
    ensures goal == Bad(a.cur, done + a.leaves) && AllSafe(e, goal.leaves)
    ensures FrameSized(e, mid) && Apply(e, last, a.leaves, mid) == Apply(e, last, goal.leaves, was)
  {
    ApplyConcat(e, last, done, a.leaves, was);
  }

  lemma FrameEnd(e: Env, last: seq<Pixel>, goal: Outcome, done: seq<Leaf>, was: seq<Pixel>, now: seq<Pixel>,
                 cur: Cursor)
    requires FrameSized(e, last) && FrameSized(e, was) && Rest(e, last, goal, done, Done(cur, []), was, now)
    ensures goal == Done(cur, done) && now == Apply(e, last, done, was)
  {
    assert done + [] == done;
  }

  /** A pair inside a row is computed like the first pair of its own row. */
  lemma PairOfRow(last: seq<Pixel>, src: nat, log2w: nat, scale: nat, dc: Pixel, c: nat)
    requires log2w > 0 && c % 2 == 0 && src + c + 2 <= |last|
    ensures RowPixel(last, src, log2w, scale, dc, c) == RowPixel(last, src + c, 1, scale, dc, 0)
    ensures RowPixel(last, src, log2w, scale, dc, c + 1) == RowPixel(last, src + c, 1, scale, dc, 1)
  {
  }

  class Decoder {
    const e: Env
    const frame: array<Pixel>
    const last: array<Pixel>
    var bit: nat
    var byte: nat
    var word: nat

    constructor (e: Env, frame: array<Pixel>, last: array<Pixel>)
      ensures this.e == e && this.frame == frame && this.last == last && Cur() == Cursor(0, 0, 0)
    {
      this.e, this.frame, this.last := e, frame, last;
      bit, byte, word := 0, 0, 0;
    }

    ghost predicate Valid()
      reads this, frame, last
    {
      frame != last && WellFormed(e) && FrameSized(e, frame[..]) && FrameSized(e, last[..])
    }

    function Cur(): Cursor
      reads this
    {
      Cursor(bit, byte, word)
    }

    /** One 32-bit step on two neighbouring pixels: LE_CENTRIC_MUL. */
    method PairMul(dst: nat, src: nat, scale: nat, dc: Pixel)
      requires frame != last && dst + 2 <= frame.Length && src + 2 <= last.Length
      modifies frame
      ensures forall p :: 0 <= p < frame.Length && p != dst && p != dst + 1 ==> frame[p] == old(frame[p])
      ensures frame[dst] == RowPixel(last[..], src, 1, scale, dc, 0)
      ensures frame[dst + 1] == RowPixel(last[..], src, 1, scale, dc, 1)
    {
      var low: int, high: int, d: int := last[src], last[src + 1], dc;
      var t := ((low + 0x10000 * high) * scale + d * 0x10001) % 0x1_0000_0000;
      frame[dst], frame[dst + 1] := t % 0x10000, t / 0x10000;
    }

    /** The one-pixel step of the narrowest blocks. */
    method OneMul(dst: nat, src: nat, scale: nat, dc: Pixel)
      requires frame != last && dst < frame.Length && src < last.Length
      modifies frame
      ensures forall p :: 0 <= p < frame.Length && p != dst ==> frame[p] == old(frame[p])
      ensures frame[dst] == RowPixel(last[..], src, 0, scale, dc, 0)
    {
      var v: int, d: int := last[src], dc;
      frame[dst] := (scale * v + d * 0x10001) % 0x10000;
    }

    /** One row of mcdc: the switch on the block width. */
    method McRow(dst: nat, src: nat, log2w: nat, scale: nat, dc: Pixel)
      requires frame != last && log2w <= 3 && dst + Pow2(log2w) <= frame.Length && src + Pow2(log2w) <= last.Length
      modifies frame
      ensures forall p :: 0 <= p < frame.Length ==>
                frame[p] == if dst <= p < dst + Pow2(log2w) then RowPixel(last[..], src, log2w, scale, dc, p - dst)
                            else old(frame[p])
    {
      Powers();
      hide RowPixel, Pow2;
      if log2w == 0 {
        OneMul(dst, src, scale, dc);
      } else {
        PairMul(dst, src, scale, dc);
        PairOfRow(last[..], src, log2w, scale, dc, 0);
        if log2w >= 2 {
          PairMul(dst + 2, src + 2, scale, dc);
          PairOfRow(last[..], src, log2w, scale, dc, 2);
        }
        if log2w == 3 {
          PairMul(dst + 4, src + 4, scale, dc);
          PairMul(dst + 6, src + 6, scale, dc);
          PairOfRow(last[..], src, log2w, scale, dc, 4);
          PairOfRow(last[..], src, log2w, scale, dc, 6);
        }
      }
    }

    /** The source row of a copy leaf lies inside the previous frame. */
    lemma SourceInside(l: Leaf, r: int)
      requires Safe(e, l) && l.op.Copy? && e.stride > 0 && 0 <= r < Pow2(l.log2h)
      ensures 0 <= SourceRow(e, l.op, r) && SourceRow(e, l.op, r) + Pow2(l.log2w) <= e.stride * e.height
    {
      RowsIsProduct(e.stride, e.height);
      var row := if l.op.scale > 0 then r else 0;
      assert ReadsInside(e, l.op.src, 0, row) && ReadsInside(e, l.op.src, Pow2(l.log2w) - 1, row);
    }

    /** mcdc on leaf `l`, which is at offset `dst`. */
    method Mcdc(ghost l: Leaf, dst: nat, src: nat, log2w: nat, h: nat, scale: nat, dc: Pixel)
      requires Valid() && Safe(e, l) && l.op == Copy(src, scale, dc) && l.log2w == log2w && h == Pow2(l.log2h)
      requires dst == Off(e, l.x, l.y)
      modifies frame
      ensures Valid() && frame[..] == ApplyLeaf(e, last[..], l, old(frame[..]))
    {
      ghost var was := frame[..];
      var i := 0;
      var d, s := dst, src;
      while i < h
        invariant 0 <= i <= h && Valid()
        invariant i < h ==> d == Off(e, l.x, l.y + i) && s == SourceRow(e, l.op, i)
        invariant RowsDone(e, last[..], l, was, frame[..], i)
      {
        RowInside(e, l.x, l.y + i, Pow2(log2w));
        SourceInside(l, i);
        ghost var mid := frame[..];
        McRow(d, s, log2w, scale, dc);
        RowStep(e, last[..], l, was, mid, frame[..], i, d, s);
        RowsAdd(e.stride, l.y + i, 1);
        RowsAdd(e.stride, i, 1);
        if scale > 0 { s := s + e.stride; }
        d := d + e.stride;
        i := i + 1;
      }
    }

    method NextWord() returns (v: Pixel)
      requires word + 2 <= |e.words|
      modifies this`word
      ensures v == Word(e, old(word)) && word == old(word) + 2
    {
      var low: int, high: int := e.words[word], e.words[word + 1];
      v := low + 256 * high;
      word := word + 2;
    }

    /** The branch of decode_p_block that writes two raw pixels. */
    method RawPixels(dst: nat, log2w: nat, log2h: nat, ghost x: int, ghost y: int)
      requires Valid() && Inside(e, x, y, log2w, log2h) && log2w + log2h == 1 && dst == Off(e, x, y)
      requires word + 4 <= |e.words|
      modifies this`word, frame
      ensures Valid() && word == old(word) + 4
      ensures var l := Leaf(x, y, log2w, log2h, Raw(Word(e, old(word)), Word(e, old(word) + 2)));
              Safe(e, l) && frame[..] == ApplyLeaf(e, last[..], l, old(frame[..]))
    {
      Powers();
      RowInside(e, x, y, Pow2(log2w));
      if log2h > 0 { RowInside(e, x, y + 1, 1); RowsAdd(e.stride, y, 1); }
      ghost var was := frame[..];
      var first := NextWord();
      var second := NextWord();
      frame[dst] := first;
      frame[if log2w > 0 then dst + 1 else dst + e.stride] := second;
      ghost var l := Leaf(x, y, log2w, log2h, Raw(first, second));
      forall p | 0 <= p < frame.Length ensures frame[p] == ApplyLeaf(e, last[..], l, was)[p] {
        OffsetIsPixel(e, x, y, Pow2(log2w), p);
        if log2h > 0 { OffsetIsPixel(e, x, y + 1, 1, p); }
      }
    }

    /** The end of decode_p_block: the bounds check on the source and the copy. */
    method CopyBlock(dst: nat, src: int, log2w: nat, log2h: nat, scale: nat, dc: Pixel, ghost x: int, ghost y: int)
        returns (ok: bool)
      requires Valid() && Inside(e, x, y, log2w, log2h) && dst == Off(e, x, y)
      modifies frame
      ensures Valid()
      ensures var o := CopyLeaf(e, Cur(), x, y, log2w, log2h, Copy(src, scale, dc));
              ok == o.Done? && AllSafe(e, o.leaves) && frame[..] == Apply(e, last[..], o.leaves, old(frame[..]))
    {
      var end := Rows(e.stride, e.height - Pow2(log2h) + 1) - Pow2(log2w);
      if src < 0 || src > end { return false; }
      CopyTiles(e, Cur(), x, y, log2w, log2h, Copy(src, scale, dc));
      ghost var l := Leaf(x, y, log2w, log2h, Copy(src, scale, dc));
      assert Safe(e, [l][0]);
      ApplySingle(e, last[..], l, frame[..]);
      Mcdc(l, dst, src, log2w, Pow2(log2h), scale, dc);
      ok := true;
    }

    /** The part of decode_p_block after the two splitting types. */
    method DecodeLeaf(code: nat, dst: nat, src: int, log2w: nat, log2h: nat, ghost x: int, ghost y: int)
        returns (ok: bool)
      requires Valid() && Inside(e, x, y, log2w, log2h) && dst == Off(e, x, y) && src == dst
      requires code <= 6 && code != 1 && code != 2 && (code == 6 ==> log2w + log2h == 1)
      modifies this`byte, this`word, frame
      ensures Valid()
      ensures var o := LeafBlock(e, old(Cur()), code, x, y, src, log2w, log2h);
              ok == o.Done? && !o.Abort? && Cur() == o.cur
              && AllSafe(e, o.leaves) && frame[..] == Apply(e, last[..], o.leaves, old(frame[..]))
    {
      OwnOffsetFits(e, x, y, log2w, log2h);
      hide Apply, FrameSized, Off, Rows;
      if code == 6 {
        if |e.words| - word < 4 { return false; }
        ghost var l := Leaf(x, y, log2w, log2h, Raw(Word(e, word), Word(e, word + 2)));
        ApplySingle(e, last[..], l, frame[..]) by { assert Safe(e, l); }
        RawPixels(dst, log2w, log2h, x, y);
        return true;
      }
      if (code == 0 || code == 4) && |e.bytes| - byte < 1 { return false; }
      var s, scale, dc: Pixel := src, 1, 0;
      if code == 0 {
        s := s + e.mv[e.bytes[byte]];
        byte := byte + 1;
      } else if code == 3 && e.version >= 2 {
        ghost var l := Leaf(x, y, log2w, log2h, Skip);
        ApplySingle(e, last[..], l, frame[..]);
        return true;
      } else if code == 4 {
        s := s + e.mv[e.bytes[byte]];
        byte := byte + 1;
        if |e.words| - word < 2 { return false; }
        dc := NextWord();
      } else if code == 5 {
        if |e.words| - word < 2 { return false; }
        assert 0 <= src <= LastStart(e, log2w, log2h); // the source's own assertion
        scale := 0;
        dc := NextWord();
      }
      ok := CopyBlock(dst, s, log2w, log2h, scale, dc, x, y);
    }

    /** Bits behind the end of the stream read as zero. */
    method PeekType(index: nat) returns (code: nat)
      requires WellFormed(e)
      ensures code == TypeOf(e.version, index, Window(e, bit))
    {
      code := TypeOf(e.version, index, Window(e, bit));
    }

    /** decode_p_block: recursive splitting on the block type, `dst` and `src` being the offset of pixel (x, y). */
    method DecodePBlock(dst: nat, src: int, log2w: int, log2h: int, ghost x: int, ghost y: int) returns (ok: bool)
      requires Valid() && Inside(e, x, y, log2w, log2h) && dst == Off(e, x, y) && src == dst
      modifies this`bit, this`byte, this`word, frame
      ensures Valid()
      ensures var o := Block(e, old(Cur()), x, y, src, log2w, log2h);
              ok == o.Done? && !o.Abort? && Cur() == o.cur
              && AllSafe(e, o.leaves) && frame[..] == Apply(e, last[..], o.leaves, old(frame[..]))
      decreases log2w + log2h, 0
    {
      hide Block, Down, Across, LeafBlock, Apply, Safe, TypeOf, LengthOf, Window, FrameSized;
      AllowedTypes(e.version, log2w, log2h, Window(e, bit));
      BlockUnfold(e, Cur(), x, y, src, log2w, log2h);
      var index := SizeToIndex(log2h, log2w);
      if |e.bits| - bit < 1 {
        ApplyNone(e, last[..], frame[..]);
        return false;
      }
      var code := PeekType(index);
      bit := bit + LengthOf(e.version, index, code);
      if code == 1 {
        ok := DecodeDown(dst, src, log2w, log2h - 1, x, y);
      } else if code == 2 {
        ok := DecodeAcross(dst, src, log2w - 1, log2h, x, y);
      } else {
        ok := DecodeLeaf(code, dst, src, log2w, log2h, x, y);
      }
    }

    /** The two recursive calls for the upper and the lower half. */
    method DecodeDown(dst: nat, src: int, log2w: int, log2h: int, ghost x: int, ghost y: int) returns (ok: bool)
      requires Valid() && Inside(e, x, y, log2w, log2h) && Inside(e, x, y + Pow2(log2h), log2w, log2h)
      requires dst == Off(e, x, y) && src == dst
      modifies this`bit, this`byte, this`word, frame
      ensures Valid()
      ensures var o := Down(e, old(Cur()), x, y, src, log2w, log2h);
              ok == o.Done? && !o.Abort? && Cur() == o.cur
              && AllSafe(e, o.leaves) && frame[..] == Apply(e, last[..], o.leaves, old(frame[..]))
      decreases log2w + log2h, 1
    {
      hide Block, Apply;
      ghost var a := Block(e, Cur(), x, y, src, log2w, log2h);
      ghost var was := frame[..];
      ok := DecodePBlock(dst, src, log2w, log2h, x, y);
      if ok {
        var step := Rows(e.stride, Pow2(log2h));
        HalfOffsets(e, x, y, src, Pow2(log2h));
        ghost var b := Block(e, a.cur, x, y + Pow2(log2h), src + step, log2w, log2h);
        ok := DecodePBlock(dst + step, src + step, log2w, log2h, x, y + Pow2(log2h));
        ApplyConcat(e, last[..], a.leaves, b.leaves, was);
      }
    }

    /** The two recursive calls for the left and the right half. */
    method DecodeAcross(dst: nat, src: int, log2w: int, log2h: int, ghost x: int, ghost y: int) returns (ok: bool)
      requires Valid() && Inside(e, x, y, log2w, log2h) && Inside(e, x + Pow2(log2w), y, log2w, log2h)
      requires dst == Off(e, x, y) && src == dst
      modifies this`bit, this`byte, this`word, frame
      ensures Valid()
      ensures var o := Across(e, old(Cur()), x, y, src, log2w, log2h);
              ok == o.Done? && !o.Abort? && Cur() == o.cur
              && AllSafe(e, o.leaves) && frame[..] == Apply(e, last[..], o.leaves, old(frame[..]))
      decreases log2w + log2h, 1
    {
      hide Block, Apply;
      ghost var a := Block(e, Cur(), x, y, src, log2w, log2h);
      ghost var was := frame[..];
      ok := DecodePBlock(dst, src, log2w, log2h, x, y);
      if ok {
        var step := Pow2(log2w);
        HalfOffsets(e, x, y, src, Pow2(log2w));
        ghost var b := Block(e, a.cur, x + Pow2(log2w), y, src + step, log2w, log2h);
        ok := DecodePBlock(dst + step, src + step, log2w, log2h, x + Pow2(log2w), y);
        ApplyConcat(e, last[..], a.leaves, b.leaves, was);
      }
    }

    /** decode_p_frame's loops over the 8x8 blocks. */
    method DecodePFrame() returns (ok: bool)
      requires Valid() && Blocked(e, 0, 0)
      modifies this`bit, this`byte, this`word, frame
      ensures Valid()
      ensures var o := Frame(e, old(Cur()), 0, 0);
              ok == o.Done? && !o.Abort? && Cur() == o.cur
              && AllSafe(e, o.leaves) && frame[..] == Apply(e, last[..], o.leaves, old(frame[..]))
    {
      hide Block, Apply, Frame, Safe, Then;
      ghost var goal := Frame(e, Cur(), 0, 0);
      ghost var done: seq<Leaf> := [];
      ghost var was := frame[..];
      FrameStart(e, last[..], goal, was);
      var y, row := 0, 0;
      while y < e.height
        invariant Valid() && Blocked(e, 0, y) && row == Off(e, 0, y)
        invariant Rest(e, last[..], goal, done, Frame(e, Cur(), 0, y), was, frame[..])
        decreases e.height - y
      {
        var x := 0;
        while x < e.stride
          invariant Valid() && Blocked(e, x, y) && y < e.height && row == Off(e, 0, y)
          invariant Rest(e, last[..], goal, done, Frame(e, Cur(), x, y), was, frame[..])
          decreases e.stride - x
        {
          FrameUnfold(e, Cur(), x, y);
          ghost var a := Block(e, Cur(), x, y, row + x, 3, 3);
          ghost var mid := frame[..];
          ok := DecodePBlock(row + x, row + x, 3, 3, x, y);
          if !ok {
            FrameBreak(e, last[..], goal, done, a, was, mid);
            return false;
          }
          FrameJoin(e, last[..], goal, done, a, Frame(e, Cur(), x + 8, y), was, mid);
          done := done + a.leaves;
          x := x + 8;
        }
        FrameUnfold(e, Cur(), x, y);
        RowsAdd(e.stride, y, 8);
        RowsIsProduct(e.stride, 8);
        row := row + 8 * e.stride;
        y := y + 8;
      }
      FrameUnfold(e, Cur(), 0, y);
      FrameEnd(e, last[..], goal, done, was, frame[..], Cur());
      ok := true;
    }
  }
}
