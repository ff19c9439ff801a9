/**
 * decode_frame of libavcodec/8bps.c: rows of literal and run packets, one plane after the other, written into an
 * interleaved frame. The decoder as functions on the frame, and in place.
 */
module EightBps {
  import opened Basics

  /** The layout decode_init chooses: plane p starts at planemap[p], pixels are `inc` bytes apart, rows `linesize`. */
  datatype Layout = Layout(planemap: seq<nat>, inc: nat, height: nat, linesize: nat)

  ghost predicate Sound(l: Layout) {
    && 0 < l.inc
    && (forall p :: 0 <= p < |l.planemap| ==> l.planemap[p] < l.inc)
    && forall p, q :: 0 <= p < q < |l.planemap| ==> l.planemap[p] != l.planemap[q]
  }

  /**
   * decode_init and the pixel step of decode_frame, on a little-endian machine; `padded`: 24 bits decoded as 0RGB32.
   */
  function Init(bits: int, padded: bool, height: nat, linesize: nat): Option<Layout> {
    if bits == 8 then Some(Layout([0], 1, height, linesize))
    else if bits == 24 then Some(Layout([2, 1, 0], if padded then 4 else 3, height, linesize))
    else if bits == 32 then Some(Layout([2, 1, 0, 3], 4, height, linesize))
    else None
  }

  lemma InitSound(bits: int, padded: bool, height: nat, linesize: nat)
    ensures Init(bits, padded, height, linesize).Some? ==> Sound(Init(bits, padded, height, linesize).value)
  {
  }

  // ---- places ----------------------------------------------------------------------------------------------------

  /** The k-th place of step `inc` from `at` on. */
  function Spot(at: nat, inc: nat, k: nat): (s: nat)
    ensures s >= at
  {
    if k == 0 then at else Spot(at, inc, k - 1) + inc
  }

  lemma {:induction false} SpotIs(at: nat, inc: nat, k: nat)
    ensures Spot(at, inc, k) == at + k * inc
  {
    if k > 0 {
      SpotIs(at, inc, k - 1);
      assert (k - 1) * inc + inc == k * inc;
    }
  }

  lemma {:induction false} SpotShift(at: nat, inc: nat, k: nat, d: nat)
    ensures Spot(at + d, inc, k) == Spot(at, inc, k) + d
  {
    if k > 0 { SpotShift(at, inc, k - 1, d); }
  }

  lemma {:induction false} SpotAdd(at: nat, inc: nat, a: nat, b: nat)
    ensures Spot(at, inc, a + b) == Spot(Spot(at, inc, a), inc, b)
  {
    if b > 0 { SpotAdd(at, inc, a, b - 1); }
  }

  lemma {:induction false} SpotAscends(at: nat, inc: nat, a: nat, b: nat)
    requires a < b
    ensures Spot(at, inc, a) + inc <= Spot(at, inc, b)
    decreases b
  {
    if a < b - 1 { SpotAscends(at, inc, a, b - 1); }
  }

  // ---- writing -----------------------------------------------------------------------------------------------------

  /** `bytes` written from `at` on, `inc` apart. */
  function Paint(frame: seq<int>, at: nat, inc: nat, bytes: seq<int>): (f: seq<int>)
    requires bytes != [] ==> Spot(at, inc, |bytes| - 1) < |frame|
    ensures |f| == |frame|
    decreases |bytes|
  {
    if bytes == [] then frame else
      var n := |bytes| - 1;
      if n > 0 then SpotLess(at, inc, n, frame); Paint(frame, at, inc, bytes[..n])[Spot(at, inc, n) := bytes[n]]
      else frame[at := bytes[0]]
  }

  lemma SpotLess(at: nat, inc: nat, n: nat, frame: seq<int>)
    requires n > 0 && Spot(at, inc, n) < |frame|
    ensures Spot(at, inc, n - 1) < |frame|
  {
  }

  function Repeat(v: int, n: nat): (s: seq<int>)
    ensures |s| == n && forall k :: 0 <= k < n ==> s[k] == v
  {
    seq(n, _ => v)
  }

  // ---- the decoder --------------------------------------------------------------------------------------------------

  /** Invalid: the source returns AVERROR_INVALIDDATA, the frame written so far. */
  datatype Out = Ok(frame: seq<int>, dp: nat) | Invalid(frame: seq<int>)

  predicate AreBytes(enc: seq<int>) { forall k :: 0 <= k < |enc| ==> 0 <= enc[k] < 256 }

  /** An unsigned int after a subtraction. */
  function Wrap(x: int): (w: nat)
    requires -0x1_0000_0000 <= x
    ensures (x >= 0 ==> w == x) && (x < 0x1_0000_0000 ==> w < 0x1_0000_0000)
  {
    if x < 0 then x + 0x1_0000_0000 else x
  }

  /** There is room for the frame's last pixel of a row that ends at `end`. */
  predicate Inside(frame: seq<int>, pix: nat, end: nat, inc: nat) { 0 < inc && pix <= end && end < |frame| + inc }

  lemma RoomFits(frame: seq<int>, pix: nat, end: nat, inc: nat, n: nat)
    requires Inside(frame, pix, end, inc) && end - pix >= Spot(0, inc, n)
    ensures Spot(pix, inc, n) <= end
    ensures n > 0 ==> Spot(pix, inc, n - 1) < |frame|
  {
    SpotShift(0, inc, n, pix);
  }

  /** One row: packets until `dlen` bytes are used up, or one does not fit the row any more. */
  function DecodeRow(enc: seq<int>, frame: seq<int>, dp: nat, dlen: nat, pix: nat, end: nat, inc: nat): (o: Out)
    requires AreBytes(enc) && dp <= |enc| && Inside(frame, pix, end, inc)
    ensures |o.frame| == |frame| && (o.Ok? ==> dp <= o.dp <= |enc|)
    decreases |enc| - dp
  {
    if dlen == 0 then Ok(frame, dp)
    else if |enc| - dp <= 1 then Invalid(frame)
    else if enc[dp] <= 127 then
      var n := enc[dp] + 1;
      if end - pix < Spot(0, inc, n) then Ok(frame, dp + 1)
      else if |enc| - (dp + 1) < n then Invalid(frame)
      else
        RoomFits(frame, pix, end, inc, n);
        DecodeRow(enc, Paint(frame, pix, inc, enc[dp + 1..dp + 1 + n]), dp + 1 + n, Wrap(dlen - (n + 1)),
                  Spot(pix, inc, n), end, inc)
    else
      var n := 257 - enc[dp];
      if end - pix < Spot(0, inc, n) then Ok(frame, dp + 1)
      else
        RoomFits(frame, pix, end, inc, n);
        DecodeRow(enc, Paint(frame, pix, inc, Repeat(enc[dp + 1], n)), dp + 2, Wrap(dlen - 2), Spot(pix, inc, n), end,
                  inc)
  }

  /** The two bytes at `at`, high byte first. */
  function Be16(enc: seq<int>, at: nat): (n: nat)
    requires AreBytes(enc) && at + 2 <= |enc|
    ensures n < 0x1_0000
  {
    enc[at] * 256 + enc[at + 1]
  }

  /** Rows `row` and after of plane `p`; `at` is where row `row` starts, `lp` where the plane's row lengths do. */
  function DecodeRows(enc: seq<int>, frame: seq<int>, l: Layout, p: nat, row: nat, at: nat, lp: nat, dp: nat): (o: Out)
    requires AreBytes(enc) && dp <= |enc| && Sound(l) && p < |l.planemap| && row <= l.height
    requires |frame| >= Spot(at, l.linesize, l.height - row)
    ensures |o.frame| == |frame| && (o.Ok? ==> o.dp <= |enc|)
    decreases l.height - row
  {
    if row == l.height then Ok(frame, dp)
    else if |enc| - lp < row * 2 + 2 then Invalid(frame)
    else
      SpotAdd(at, l.linesize, 1, l.height - row - 1);
      var start := at + l.planemap[p];
      var o := DecodeRow(enc, frame, dp, Be16(enc, lp + row * 2), start, start + l.linesize, l.inc);
      if o.Invalid? then o else DecodeRows(enc, o.frame, l, p, row + 1, at + l.linesize, lp, o.dp)
  }

  /** Planes `p` and after. */
  function DecodePlanes(enc: seq<int>, frame: seq<int>, l: Layout, p: nat, lp: nat, dp: nat): (o: Out)
    requires AreBytes(enc) && dp <= |enc| && Sound(l) && p <= |l.planemap| && |frame| >= Spot(0, l.linesize, l.height)
    ensures |o.frame| == |frame|
    decreases |l.planemap| - p
  {
    if p == |l.planemap| then Ok(frame, dp)
    else
      var o := DecodeRows(enc, frame, l, p, 0, 0, lp, dp);
      if o.Invalid? then o else DecodePlanes(enc, o.frame, l, p + 1, lp + 2 * l.height, o.dp)
  }

  /** A packet of data: the row lengths of all planes, then their rows. */
  function Decode(enc: seq<int>, frame: seq<int>, l: Layout): (o: Out)
    requires AreBytes(enc) && Sound(l) && |frame| >= Spot(0, l.linesize, l.height)
    ensures |o.frame| == |frame|
  {
    var header := Spot(0, 2 * l.height, |l.planemap|);
    if |enc| < header then Invalid(frame) else DecodePlanes(enc, frame, l, 0, 0, header)
  }

  // ---- in place -----------------------------------------------------------------------------------------------------

  /** `count` bytes to places `inc` apart: the next ones of the data, or one byte repeated. */
  method Write(frame: array<int>, pix: nat, inc: nat, bytes: seq<int>) returns (next: nat)
    requires bytes != [] ==> Spot(pix, inc, |bytes| - 1) < frame.Length
    modifies frame
    ensures frame[..] == Paint(old(frame[..]), pix, inc, bytes) && next == Spot(pix, inc, |bytes|)
  {
    next := pix;
    var k := 0;
    while k < |bytes|
      invariant 0 <= k <= |bytes| && next == Spot(pix, inc, k)
      invariant k > 0 ==> Spot(pix, inc, k - 1) < frame.Length
      invariant frame[..] == Paint(old(frame[..]), pix, inc, bytes[..k])
    {
      if k < |bytes| - 1 { SpotAscends(pix, inc, k, |bytes| - 1); }
      frame[next] := bytes[k];
      assert bytes[..k + 1][..k] == bytes[..k];
      next := next + inc;
      k := k + 1;
    }
    assert bytes[..k] == bytes;
  }

  method Fits(pix: nat, end: nat, inc: nat, count: nat) returns (fits: bool)
    requires pix <= end
    ensures fits <==> end - pix >= Spot(0, inc, count)
  {
    SpotIs(0, inc, count);
    fits := end - pix >= count * inc;
  }

  method ReadRow(enc: seq<int>, frame: array<int>, dp0: nat, dlen0: nat, start: nat, end: nat, inc: nat)
    returns (ok: bool, dp: nat)
    requires AreBytes(enc) && dp0 <= |enc| && dlen0 < 0x1_0000_0000 && Inside(frame[..], start, end, inc)
    modifies frame
    ensures (if ok then Ok(frame[..], dp) else Invalid(frame[..])) ==
            DecodeRow(enc, old(frame[..]), dp0, dlen0, start, end, inc)
  {
    hide Spot, Paint, Wrap;
    dp := dp0;
    var dlen: nat, pix: nat := dlen0, start;
    while dlen > 0
      invariant dp <= |enc| && dlen < 0x1_0000_0000 && Inside(frame[..], pix, end, inc)
      invariant DecodeRow(enc, frame[..], dp, dlen, pix, end, inc) ==
                DecodeRow(enc, old(frame[..]), dp0, dlen0, start, end, inc)
      decreases |enc| - dp
    {
      if |enc| - dp <= 1 { return false, dp; }
      var count := enc[dp];
      dp := dp + 1;
      if count <= 127 {
        count := count + 1;
        dlen := Wrap(dlen - (count + 1));
        var fits := Fits(pix, end, inc, count);
        if !fits { return true, dp; }
        if |enc| - dp < count { return false, dp; }
        RoomFits(frame[..], pix, end, inc, count);
        pix := Write(frame, pix, inc, enc[dp..dp + count]);
        dp := dp + count;
      } else {
        count := 257 - count;
        var fits := Fits(pix, end, inc, count);
        if !fits { return true, dp; }
        RoomFits(frame[..], pix, end, inc, count);
        pix := Write(frame, pix, inc, Repeat(enc[dp], count));
        dp := dp + 1;
        dlen := Wrap(dlen - 2);
      }
    }
    ok := true;
  }

  method ReadPlane(enc: seq<int>, frame: array<int>, l: Layout, p: nat, lp: nat, dp0: nat) returns (ok: bool, dp: nat)
    requires AreBytes(enc) && dp0 <= |enc| && Sound(l) && p < |l.planemap|
    requires frame.Length >= Spot(0, l.linesize, l.height)
    modifies frame
    ensures ok ==> dp <= |enc|
    ensures (if ok then Ok(frame[..], dp) else Invalid(frame[..])) ==
            DecodeRows(enc, old(frame[..]), l, p, 0, 0, lp, dp0)
  {
    hide DecodeRow, Sound, Paint;
    dp := dp0;
    var row: nat, at: nat := 0, 0;
    while row < l.height
      invariant 0 <= row <= l.height && dp <= |enc| && frame.Length >= Spot(at, l.linesize, l.height - row)
      invariant DecodeRows(enc, frame[..], l, p, row, at, lp, dp) ==
                DecodeRows(enc, old(frame[..]), l, p, 0, 0, lp, dp0)
    {
      if |enc| - lp < row * 2 + 2 { return false, dp; }
      SpotAdd(at, l.linesize, 1, l.height - row - 1);
      RowInside(frame[..], l, p, at);
      var start := at + l.planemap[p];
      ok, dp := ReadRow(enc, frame, dp, enc[lp + row * 2] * 256 + enc[lp + row * 2 + 1], start, start + l.linesize,
                        l.inc);
      if !ok { return; }
      at := at + l.linesize;
      row := row + 1;
    }
    ok := true;
  }

  lemma RowInside(frame: seq<int>, l: Layout, p: nat, at: nat)
    requires Sound(l) && p < |l.planemap| && at + l.linesize <= |frame|
    ensures Inside(frame, at + l.planemap[p], at + l.planemap[p] + l.linesize, l.inc)
  {
  }

  /** decode_frame up to the palette; false where the source returns AVERROR_INVALIDDATA. */
  method DecodeFrame(enc: seq<int>, frame: array<int>, l: Layout) returns (ok: bool)
    requires AreBytes(enc) && Sound(l) && frame.Length >= Spot(0, l.linesize, l.height)
    modifies frame
    ensures ok <==> Decode(enc, old(frame[..]), l).Ok?
    ensures frame[..] == Decode(enc, old(frame[..]), l).frame
  {
    hide Sound, DecodeRows;
    var planes := |l.planemap|;
    SpotIs(0, 2 * l.height, planes);
    if |enc| < planes * (2 * l.height) { return false; }
    var p: nat, lp: nat, dp: nat := 0, 0, planes * (2 * l.height);
    while p < planes
      invariant 0 <= p <= planes && dp <= |enc|
      invariant DecodePlanes(enc, frame[..], l, p, lp, dp) == Decode(enc, old(frame[..]), l)
    {
      ok, dp := ReadPlane(enc, frame, l, p, lp, dp);
      if !ok { return; }
      p := p + 1;
      lp := lp + 2 * l.height;
    }
    ok := true;
  }
}
