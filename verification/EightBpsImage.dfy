/** What the 8BPS decoder makes of a well-formed image, and what any data at all can make it do. */
module EightBpsImage {
  import opened Basics
  import opened EightBps

  // ---- packets and rows --------------------------------------------------------------------------------------

  datatype Packet = Literal(bytes: seq<int>) | Run(value: int, count: nat)

  predicate ValidPacket(p: Packet) {
    match p
    case Literal(bytes) => 1 <= |bytes| <= 128 && AreBytes(bytes)
    case Run(value, count) => 0 <= value < 256 && 2 <= count <= 129
  }

  function EncodePacket(p: Packet): seq<int> {
    match p
    case Literal(bytes) => [|bytes| - 1] + bytes
    case Run(value, count) => [257 - count, value]
  }

  function ExpandPacket(p: Packet): seq<int> {
    match p
    case Literal(bytes) => bytes
    case Run(value, count) => Repeat(value, count)
  }

  function EncodeRow(ps: seq<Packet>): seq<int>
    decreases |ps|
  {
    if ps == [] then [] else EncodePacket(ps[0]) + EncodeRow(ps[1..])
  }

  /** The pixels of a row. */
  function Expand(ps: seq<Packet>): seq<int>
    decreases |ps|
  {
    if ps == [] then [] else ExpandPacket(ps[0]) + Expand(ps[1..])
  }

  ghost predicate ValidPackets(ps: seq<Packet>) { forall k :: 0 <= k < |ps| ==> ValidPacket(ps[k]) }

  /** A row that fits the frame and whose length fits its two bytes. */
  ghost predicate ValidRow(l: Layout, ps: seq<Packet>) {
    ValidPackets(ps) && |EncodeRow(ps)| < 0x1_0000 && Spot(0, l.inc, |Expand(ps)|) <= l.linesize
  }

  lemma {:induction false} PaintConcat(frame: seq<int>, at: nat, inc: nat, a: seq<int>, b: seq<int>)
    requires inc > 0 && a != [] && Spot(at, inc, |a| + |b| - 1) < |frame|
    ensures Spot(at, inc, |a| - 1) < |frame|
    ensures b != [] ==> Spot(Spot(at, inc, |a|), inc, |b| - 1) < |frame|
    ensures Paint(frame, at, inc, a + b) == Paint(Paint(frame, at, inc, a), Spot(at, inc, |a|), inc, b)
    decreases |b|
  {
    hide Spot;
    if b == [] {
      assert a + b == a;
    } else {
      var n := |b| - 1;
      SpotAdd(at, inc, |a|, n);
      SpotAscends(at, inc, |a| - 1, |a| + n);
      if n > 0 { SpotAscends(at, inc, |a| + n - 1, |a| + n); }
      PaintConcat(frame, at, inc, a, b[..n]);
      assert (a + b)[..|a| + n] == a + b[..n];
      if n == 0 { assert a + b[..n] == a; }
    }
  }

  lemma SliceParts(enc: seq<int>, dp: nat, a: seq<int>, b: seq<int>)
    requires dp + |a| + |b| <= |enc| && enc[dp..dp + |a| + |b|] == a + b
    ensures enc[dp..dp + |a|] == a && enc[dp + |a|..dp + |a| + |b|] == b
  {
    assert enc[dp..dp + |a|] == enc[dp..dp + |a| + |b|][..|a|];
    assert enc[dp + |a|..dp + |a| + |b|] == enc[dp..dp + |a| + |b|][|a|..];
  }

  lemma PacketSizes(p: Packet)
    requires ValidPacket(p)
    ensures |EncodePacket(p)| >= 2 && |ExpandPacket(p)| >= 1
  {
  }

  lemma NothingToDo(enc: seq<int>, frame: seq<int>, dp: nat, pix: nat, end: nat, inc: nat)
    requires AreBytes(enc) && dp <= |enc| && Inside(frame, pix, end, inc)
    ensures DecodeRow(enc, frame, dp, 0, pix, end, inc) == Ok(Paint(frame, pix, inc, []), dp)
  {
  }

  /** A valid row is read back as its pixels, to the last byte of its budget. */
  lemma {:induction false} RowRoundTrip(enc: seq<int>, frame: seq<int>, dp: nat, ps: seq<Packet>, pix: nat, end: nat,
                                        inc: nat)
    requires AreBytes(enc) && Inside(frame, pix, end, inc) && ValidPackets(ps)
    requires dp + |EncodeRow(ps)| <= |enc| && enc[dp..dp + |EncodeRow(ps)|] == EncodeRow(ps)
    requires Spot(pix, inc, |Expand(ps)|) <= end
    ensures Expand(ps) != [] ==> Spot(pix, inc, |Expand(ps)| - 1) < |frame|
    ensures DecodeRow(enc, frame, dp, |EncodeRow(ps)|, pix, end, inc) ==
            Ok(Paint(frame, pix, inc, Expand(ps)), dp + |EncodeRow(ps)|)
    decreases |ps|
  {
    hide DecodeRow, Paint, EncodePacket, ExpandPacket, ValidPacket, AreBytes, Spot;
    if ps == [] {
      NothingToDo(enc, frame, dp, pix, end, inc);
    } else {
      var p, rest := ps[0], ps[1..];
      assert ValidPacket(p) && ValidPackets(rest);
      PacketSizes(p);
      var a, b := ExpandPacket(p), Expand(rest);
      SliceParts(enc, dp, EncodePacket(p), EncodeRow(rest));
      SpotAdd(pix, inc, |a|, |b|);
      SpotAscends(pix, inc, |a| + |b| - 1, |a| + |b|);
      PaintConcat(frame, pix, inc, a, b);
      FirstPacket(enc, frame, dp, p, |EncodeRow(ps)|, pix, end, inc);
      RowRoundTrip(enc, Paint(frame, pix, inc, a), dp + |EncodePacket(p)|, rest, Spot(pix, inc, |a|), end, inc);
    }
  }

  /** One round of DecodeRow on a packet that is there in full and has room, whatever is left of the row's length. */
  lemma FirstPacket(enc: seq<int>, frame: seq<int>, dp: nat, p: Packet, dlen: nat, pix: nat, end: nat, inc: nat)
    requires AreBytes(enc) && Inside(frame, pix, end, inc) && ValidPacket(p)
    requires dp + |EncodePacket(p)| <= |enc| && enc[dp..dp + |EncodePacket(p)|] == EncodePacket(p)
    requires dlen > 0 && Spot(pix, inc, |ExpandPacket(p)|) <= end
    ensures Spot(pix, inc, |ExpandPacket(p)| - 1) < |frame|
    ensures DecodeRow(enc, frame, dp, dlen, pix, end, inc)
         == DecodeRow(enc, Paint(frame, pix, inc, ExpandPacket(p)), dp + |EncodePacket(p)|,
                      Wrap(dlen - |EncodePacket(p)|), Spot(pix, inc, |ExpandPacket(p)|), end, inc)
  {
    hide Spot, Paint, AreBytes, EncodePacket, ExpandPacket, ValidPacket, Repeat;
    var n := |ExpandPacket(p)|;
    ReadsPacket(enc, dp, p);
    SpotShift(0, inc, n, pix);
    RoomFits(frame, pix, end, inc, n);
  }

  lemma ReadsPacket(enc: seq<int>, dp: nat, p: Packet)
    requires ValidPacket(p) && dp + |EncodePacket(p)| <= |enc| && enc[dp..dp + |EncodePacket(p)|] == EncodePacket(p)
    ensures p.Literal? ==> 0 <= enc[dp] <= 127 && |EncodePacket(p)| == enc[dp] + 2
                           && ExpandPacket(p) == enc[dp + 1..dp + 2 + enc[dp]]
    ensures p.Run? ==> 127 < enc[dp] < 256 && |EncodePacket(p)| == 2
                       && ExpandPacket(p) == Repeat(enc[dp + 1], 257 - enc[dp])
    ensures |ExpandPacket(p)| == if p.Literal? then enc[dp] + 1 else 257 - enc[dp]
  {
    var e := EncodePacket(p);
    assert enc[dp] == enc[dp..dp + |e|][0] && enc[dp + 1] == enc[dp..dp + |e|][1];
    if p.Literal? { assert enc[dp + 1..dp + |e|] == enc[dp..dp + |e|][1..] == e[1..] == p.bytes; }
  }

  // ---- planes -----------------------------------------------------------------------------------------------------

  function LengthBytes(n: nat): seq<int> { [n / 256, n % 256] }

  function Lengths(rows: seq<seq<Packet>>): (s: seq<int>)
    ensures |s| == 2 * |rows|
    decreases |rows|
  {
    if rows == [] then [] else LengthBytes(|EncodeRow(rows[0])|) + Lengths(rows[1..])
  }

  function PlaneData(rows: seq<seq<Packet>>): seq<int>
    decreases |rows|
  {
    if rows == [] then [] else EncodeRow(rows[0]) + PlaneData(rows[1..])
  }

  /** The rows of a plane written one below the other from `at` on. */
  function PaintRows(frame: seq<int>, l: Layout, p: nat, at: nat, rows: seq<seq<Packet>>): (f: seq<int>)
    requires Sound(l) && p < |l.planemap| && |frame| >= Spot(at, l.linesize, |rows|)
    requires forall k :: 0 <= k < |rows| ==> ValidRow(l, rows[k])
    ensures |f| == |frame|
    decreases |rows|
  {
    if rows == [] then frame else
      assert ValidRow(l, rows[0]);
      SpotAdd(at, l.linesize, 1, |rows| - 1);
      RowFits(frame, l, p, at, rows[0]);
      PaintRows(Paint(frame, at + l.planemap[p], l.inc, Expand(rows[0])), l, p, at + l.linesize, rows[1..])
  }

  lemma RowFits(frame: seq<int>, l: Layout, p: nat, at: nat, ps: seq<Packet>)
    requires Sound(l) && p < |l.planemap| && ValidRow(l, ps) && at + l.linesize <= |frame|
    ensures Spot(at + l.planemap[p], l.inc, |Expand(ps)|) <= at + l.planemap[p] + l.linesize
    ensures Expand(ps) != [] ==> Spot(at + l.planemap[p], l.inc, |Expand(ps)| - 1) < at + l.linesize
  {
    SpotShift(0, l.inc, |Expand(ps)|, at + l.planemap[p]);
    if Expand(ps) != [] { SpotAscends(at + l.planemap[p], l.inc, |Expand(ps)| - 1, |Expand(ps)|); }
  }

  lemma NoRows()
    ensures PlaneData([]) == []
  {
  }

  lemma PlaneParts(rows: seq<seq<Packet>>)
    requires rows != []
    ensures PlaneData(rows) == EncodeRow(rows[0]) + PlaneData(rows[1..])
  {
  }

  lemma FirstLength(enc: seq<int>, row: nat, lp: nat, rows: seq<seq<Packet>>)
    requires AreBytes(enc) && rows != []
    requires lp + 2 * row + 2 * |rows| <= |enc| && enc[lp + 2 * row..lp + 2 * row + 2 * |rows|] == Lengths(rows)
    ensures Be16(enc, lp + row * 2) == |EncodeRow(rows[0])|
    ensures enc[lp + 2 * (row + 1)..lp + 2 * (row + 1) + 2 * |rows[1..]|] == Lengths(rows[1..])
  {
    hide EncodeRow, AreBytes, Be16;
    SliceParts(enc, lp + 2 * row, LengthBytes(|EncodeRow(rows[0])|), Lengths(rows[1..]));
    LengthRead(enc, lp + row * 2, |EncodeRow(rows[0])|);
  }

  /** The length and the packets of the first row, and those of the rest. */
  lemma RowParts(enc: seq<int>, row: nat, lp: nat, dp: nat, rows: seq<seq<Packet>>)
    requires AreBytes(enc) && rows != []
    requires lp + 2 * row + 2 * |rows| <= |enc| && enc[lp + 2 * row..lp + 2 * row + 2 * |rows|] == Lengths(rows)
    requires dp + |PlaneData(rows)| <= |enc| && enc[dp..dp + |PlaneData(rows)|] == PlaneData(rows)
    ensures var e, rest := EncodeRow(rows[0]), rows[1..];
            && Be16(enc, lp + row * 2) == |e| && |PlaneData(rows)| == |e| + |PlaneData(rest)|
            && enc[lp + 2 * (row + 1)..lp + 2 * (row + 1) + 2 * |rest|] == Lengths(rest)
            && enc[dp..dp + |e|] == e && enc[dp + |e|..dp + |e| + |PlaneData(rest)|] == PlaneData(rest)
  {
    hide EncodeRow, AreBytes, Be16, Lengths, PlaneData;
    FirstLength(enc, row, lp, rows);
    PlaneParts(rows);
    SliceParts(enc, dp, EncodeRow(rows[0]), PlaneData(rows[1..]));
  }

  lemma {:induction false} RowsRoundTrip(enc: seq<int>, frame: seq<int>, l: Layout, p: nat, row: nat, at: nat, lp: nat,
                                         dp: nat, rows: seq<seq<Packet>>)
    requires AreBytes(enc) && Sound(l) && p < |l.planemap| && row + |rows| == l.height
    requires |frame| >= Spot(at, l.linesize, |rows|) && forall k :: 0 <= k < |rows| ==> ValidRow(l, rows[k])
    requires lp + 2 * row + 2 * |rows| <= |enc| && enc[lp + 2 * row..lp + 2 * row + 2 * |rows|] == Lengths(rows)
    requires dp + |PlaneData(rows)| <= |enc| && enc[dp..dp + |PlaneData(rows)|] == PlaneData(rows)
    ensures DecodeRows(enc, frame, l, p, row, at, lp, dp) ==
            Ok(PaintRows(frame, l, p, at, rows), dp + |PlaneData(rows)|)
    decreases |rows|
  {
    hide DecodeRow, Paint, EncodeRow, Expand, ValidPackets, AreBytes, Spot, Sound, Be16, Inside, Lengths, PlaneData;
    NoRows();
    if rows != [] {
      var ps, rest := rows[0], rows[1..];
      assert ValidRow(l, ps);
      SpotAdd(at, l.linesize, 1, |rest|);
      OneRow(at, l.linesize);
      RowFits(frame, l, p, at, ps);
      RowInside(frame, l, p, at);
      RowParts(enc, row, lp, dp, rows);
      var start := at + l.planemap[p];
      RowRoundTrip(enc, frame, dp, ps, start, start + l.linesize, l.inc);
      RowsRoundTrip(enc, Paint(frame, start, l.inc, Expand(ps)), l, p, row + 1, at + l.linesize, lp,
                    dp + |EncodeRow(ps)|, rest);
    }
  }

  lemma OneRow(at: nat, linesize: nat)
    ensures Spot(at, linesize, 1) == at + linesize
  {
    assert Spot(at, linesize, 0) == at;
  }

  lemma LengthRead(enc: seq<int>, at: nat, n: nat)
    requires AreBytes(enc) && at + 2 <= |enc| && enc[at..at + 2] == LengthBytes(n)
    ensures Be16(enc, at) == n
  {
    assert enc[at] == enc[at..at + 2][0] && enc[at + 1] == enc[at..at + 2][1];
  }

  // ---- the image ----------------------------------------------------------------------------------------------------

  /** An image: its planes, each its rows of packets. */
  type Image = seq<seq<seq<Packet>>>

  ghost predicate ValidPlane(l: Layout, rows: seq<seq<Packet>>) {
    |rows| == l.height && forall k :: 0 <= k < |rows| ==> ValidRow(l, rows[k])
  }

  ghost predicate ValidPlanes(l: Layout, img: Image) { forall p :: 0 <= p < |img| ==> ValidPlane(l, img[p]) }

  function Header(img: Image): seq<int>
    decreases |img|
  {
    if img == [] then [] else Lengths(img[0]) + Header(img[1..])
  }

  function Data(img: Image): seq<int>
    decreases |img|
  {
    if img == [] then [] else PlaneData(img[0]) + Data(img[1..])
  }

  function Encode(img: Image): seq<int> { Header(img) + Data(img) }

  /** Planes `p` and after, each written over the whole frame. */
  function PaintPlanes(frame: seq<int>, l: Layout, p: nat, img: Image): (f: seq<int>)
    requires Sound(l) && p + |img| == |l.planemap| && |frame| >= Spot(0, l.linesize, l.height) && ValidPlanes(l, img)
    ensures |f| == |frame|
    decreases |img|
  {
    if img == [] then frame else
      assert ValidPlane(l, img[0]) && ValidPlanes(l, img[1..]);
      PaintPlanes(PaintRows(frame, l, p, 0, img[0]), l, p + 1, img[1..])
  }

  lemma {:induction false} PlanesRoundTrip(enc: seq<int>, frame: seq<int>, l: Layout, p: nat, lp: nat, dp: nat,
                                           img: Image)
    requires AreBytes(enc) && Sound(l) && p + |img| == |l.planemap| && |frame| >= Spot(0, l.linesize, l.height)
    requires ValidPlanes(l, img)
    requires lp + |Header(img)| <= |enc| && enc[lp..lp + |Header(img)|] == Header(img)
    requires dp + |Data(img)| <= |enc| && enc[dp..dp + |Data(img)|] == Data(img)
    ensures DecodePlanes(enc, frame, l, p, lp, dp) == Ok(PaintPlanes(frame, l, p, img), dp + |Data(img)|)
    decreases |img|
  {
    hide DecodeRows, PaintRows, Lengths, PlaneData, ValidRow, AreBytes, Sound;
    if img != [] {
      var rows, rest := img[0], img[1..];
      assert ValidPlane(l, rows) && ValidPlanes(l, rest);
      SliceParts(enc, lp, Lengths(rows), Header(rest));
      SliceParts(enc, dp, PlaneData(rows), Data(rest));
      RowsRoundTrip(enc, frame, l, p, 0, 0, lp, dp, rows);
      PlanesRoundTrip(enc, PaintRows(frame, l, p, 0, rows), l, p + 1, lp + 2 * l.height, dp + |PlaneData(rows)|, rest);
    }
  }

  lemma {:induction false} HeaderSize(l: Layout, img: Image)
    requires ValidPlanes(l, img)
    ensures |Header(img)| == Spot(0, 2 * l.height, |img|)
    decreases |img|
  {
    if img != [] {
      assert ValidPlane(l, img[0]) && ValidPlanes(l, img[1..]);
      HeaderSize(l, img[1..]);
      SpotShift(0, 2 * l.height, |img| - 1, 2 * l.height);
      SpotAdd(0, 2 * l.height, 1, |img| - 1);
      OneRow(0, 2 * l.height);
    }
  }

  /** Decoding an encoded image writes its planes, and uses the data to the last byte. */
  lemma DecodesWhatWasEncoded(frame: seq<int>, l: Layout, img: Image)
    requires Sound(l) && |img| == |l.planemap| && ValidPlanes(l, img) && |frame| >= Spot(0, l.linesize, l.height)
    requires AreBytes(Encode(img))
    ensures Decode(Encode(img), frame, l) == Ok(PaintPlanes(frame, l, 0, img), |Encode(img)|)
  {
    HeaderSize(l, img);
    var enc := Encode(img);
    assert enc[0..0 + |Header(img)|] == Header(img);
    assert enc[|Header(img)|..|Header(img)| + |Data(img)|] == Data(img);
    PlanesRoundTrip(enc, frame, l, 0, 0, |Header(img)|, img);
  }

  // ---- pixel by pixel -----------------------------------------------------------------------------------------------

  lemma {:induction false} Painted(frame: seq<int>, at: nat, inc: nat, bytes: seq<int>, k: nat)
    requires inc > 0 && k < |bytes| && Spot(at, inc, |bytes| - 1) < |frame|
    ensures Spot(at, inc, k) < |frame| && Paint(frame, at, inc, bytes)[Spot(at, inc, k)] == bytes[k]
    decreases |bytes|
  {
    var n := |bytes| - 1;
    if k < n {
      SpotAscends(at, inc, k, n);
      if n > 0 { SpotAscends(at, inc, n - 1, n); }
      Painted(frame, at, inc, bytes[..n], k);
    }
  }

  lemma {:induction false} Unpainted(frame: seq<int>, at: nat, inc: nat, bytes: seq<int>, j: nat)
    requires inc > 0 && j < |frame| && (bytes != [] ==> Spot(at, inc, |bytes| - 1) < |frame|)
    requires forall k :: 0 <= k < |bytes| ==> Spot(at, inc, k) != j
    ensures Paint(frame, at, inc, bytes)[j] == frame[j]
    decreases |bytes|
  {
    if bytes != [] {
      var n := |bytes| - 1;
      assert Spot(at, inc, n) != j;
      if n > 0 {
        SpotAscends(at, inc, n - 1, n);
        Unpainted(frame, at, inc, bytes[..n], j);
      }
    }
  }

  /** `j` is no place of the row that starts at `pix` and has room up to `end`. */
  ghost predicate Off(pix: nat, end: nat, inc: nat, j: nat) {
    forall k: nat :: Spot(pix, inc, k) + inc <= end ==> Spot(pix, inc, k) != j
  }

  lemma OffAhead(pix: nat, end: nat, inc: nat, j: nat, n: nat)
    requires Off(pix, end, inc, j)
    ensures Off(Spot(pix, inc, n), end, inc, j)
  {
    forall k: nat | Spot(Spot(pix, inc, n), inc, k) + inc <= end ensures Spot(Spot(pix, inc, n), inc, k) != j {
      SpotAdd(pix, inc, n, k);
    }
  }

  lemma OffUnpainted(frame: seq<int>, pix: nat, end: nat, inc: nat, bytes: seq<int>, j: nat)
    requires Inside(frame, pix, end, inc) && j < |frame| && Off(pix, end, inc, j) && Spot(pix, inc, |bytes|) <= end
    ensures bytes != [] ==> Spot(pix, inc, |bytes| - 1) < |frame|
    ensures Paint(frame, pix, inc, bytes)[j] == frame[j]
  {
    forall k | 0 <= k < |bytes| ensures Spot(pix, inc, k) != j { SpotAscends(pix, inc, k, |bytes|); }
    Unpainted(frame, pix, inc, bytes, j);
  }

  /** Whatever the data: a row writes only its own places. */
  lemma {:induction false} RowWritesItsPlaces(enc: seq<int>, frame: seq<int>, dp: nat, dlen: nat, pix: nat, end: nat,
                                              inc: nat, j: nat)
    requires AreBytes(enc) && dp <= |enc| && Inside(frame, pix, end, inc) && j < |frame| && Off(pix, end, inc, j)
    ensures DecodeRow(enc, frame, dp, dlen, pix, end, inc).frame[j] == frame[j]
    decreases |enc| - dp
  {
    hide Paint, Spot, Off;
    if dlen > 0 && |enc| - dp > 1 {
      var literal := enc[dp] <= 127;
      var n := if literal then enc[dp] + 1 else 257 - enc[dp];
      if end - pix >= Spot(0, inc, n) {
        RoomFits(frame, pix, end, inc, n);
        OffAhead(pix, end, inc, j, n);
        if !literal {
          var painted := Paint(frame, pix, inc, Repeat(enc[dp + 1], n));
          OffUnpainted(frame, pix, end, inc, Repeat(enc[dp + 1], n), j);
          RowWritesItsPlaces(enc, painted, dp + 2, Wrap(dlen - 2), Spot(pix, inc, n), end, inc, j);
        } else if |enc| - (dp + 1) >= n {
          var bytes := enc[dp + 1..dp + 1 + n];
          OffUnpainted(frame, pix, end, inc, bytes, j);
          RowWritesItsPlaces(enc, Paint(frame, pix, inc, bytes), dp + 1 + n, Wrap(dlen - (n + 1)), Spot(pix, inc, n),
                             end, inc, j);
        }
      }
    }
  }

  /** `j` is no place of any of the `n` rows of plane `q` from `at` on. */
  ghost predicate OffRows(l: Layout, q: nat, at: nat, n: nat, j: nat)
    requires q < |l.planemap|
  {
    forall i: nat :: i < n ==> OffRow(l, q, Spot(at, l.linesize, i), j)
  }

  ghost predicate OffRow(l: Layout, q: nat, at: nat, j: nat)
    requires q < |l.planemap|
  {
    Off(at + l.planemap[q], at + l.planemap[q] + l.linesize, l.inc, j)
  }

  lemma OffRowsTail(l: Layout, q: nat, at: nat, n: nat, j: nat)
    requires q < |l.planemap| && n > 0 && OffRows(l, q, at, n, j)
    ensures OffRow(l, q, at, j) && OffRows(l, q, at + l.linesize, n - 1, j)
  {
    var next := at + l.linesize;
    assert Spot(at, l.linesize, 0) == at;
    OneRow(at, l.linesize);
    forall i: nat | i < n - 1 ensures OffRow(l, q, Spot(next, l.linesize, i), j) { SpotAdd(at, l.linesize, 1, i); }
  }

  /** Whatever the data: the rows of a plane write only its places. */
  lemma {:induction false} PlaneWritesItsPlaces(enc: seq<int>, frame: seq<int>, l: Layout, q: nat, row: nat, at: nat,
                                                lp: nat, dp: nat, j: nat)
    requires AreBytes(enc) && dp <= |enc| && Sound(l) && q < |l.planemap| && row <= l.height
    requires |frame| >= Spot(at, l.linesize, l.height - row) && j < |frame| && OffRows(l, q, at, l.height - row, j)
    ensures DecodeRows(enc, frame, l, q, row, at, lp, dp).frame[j] == frame[j]
    decreases l.height - row
  {
    hide DecodeRow, Off, OffRows, Spot, Be16, AreBytes;
    if row < l.height && |enc| - lp >= row * 2 + 2 {
      SpotAdd(at, l.linesize, 1, l.height - row - 1);
      OneRow(at, l.linesize);
      OffRowsTail(l, q, at, l.height - row, j);
      RowInside(frame, l, q, at);
      var start := at + l.planemap[q];
      RowWritesItsPlaces(enc, frame, dp, Be16(enc, lp + row * 2), start, start + l.linesize, l.inc, j);
      var o := DecodeRow(enc, frame, dp, Be16(enc, lp + row * 2), start, start + l.linesize, l.inc);
      if o.Ok? { PlaneWritesItsPlaces(enc, o.frame, l, q, row + 1, at + l.linesize, lp, o.dp, j); }
    }
  }

  lemma {:induction false} PaintRowsOff(frame: seq<int>, l: Layout, q: nat, at: nat, rows: seq<seq<Packet>>, j: nat)
    requires Sound(l) && q < |l.planemap| && |frame| >= Spot(at, l.linesize, |rows|)
    requires (forall k :: 0 <= k < |rows| ==> ValidRow(l, rows[k])) && j < |frame| && OffRows(l, q, at, |rows|, j)
    ensures PaintRows(frame, l, q, at, rows)[j] == frame[j]
    decreases |rows|
  {
    hide Paint, Off, OffRows, Spot, ValidPackets, EncodeRow, Expand;
    if rows != [] {
      assert ValidRow(l, rows[0]);
      SpotAdd(at, l.linesize, 1, |rows| - 1);
      OneRow(at, l.linesize);
      OffRowsTail(l, q, at, |rows|, j);
      RowFits(frame, l, q, at, rows[0]);
      RowInside(frame, l, q, at);
      var start := at + l.planemap[q];
      OffUnpainted(frame, start, start + l.linesize, l.inc, Expand(rows[0]), j);
      PaintRowsOff(Paint(frame, start, l.inc, Expand(rows[0])), l, q, at + l.linesize, rows[1..], j);
    }
  }

  // ---- which places belong to which plane ---------------------------------------------------------------------------

  /** Pixel x of a plane in the row that starts at `at`. */
  function Cell(l: Layout, p: nat, at: nat, x: nat): nat
    requires p < |l.planemap|
  {
    Spot(at + l.planemap[p], l.inc, x)
  }

  lemma Outside(l: Layout, q: nat, at: nat, j: nat)
    requires Sound(l) && q < |l.planemap| && (j < at || at + l.linesize <= j)
    ensures OffRow(l, q, at, j)
  {
  }

  /** In one row, the places of two planes differ. */
  lemma OtherPlane(l: Layout, p: nat, q: nat, at: nat, x: nat)
    requires Sound(l) && p < |l.planemap| && q < |l.planemap| && p != q
    ensures OffRow(l, q, at, Cell(l, p, at, x))
  {
    var m, n, pix := l.planemap[p], l.planemap[q], at + l.planemap[q];
    SpotShift(at, l.inc, x, m);
    forall k: nat ensures Spot(pix, l.inc, k) != Cell(l, p, at, x) {
      SpotShift(at, l.inc, k, n);
      if k < x { SpotAscends(at, l.inc, k, x); }
      if x < k { SpotAscends(at, l.inc, x, k); }
    }
  }

  /** A pixel of row `r` of one plane is off all rows of another, and off all rows of its own plane that come later. */
  lemma PixelOff(l: Layout, p: nat, q: nat, at: nat, n: nat, r: nat, x: nat)
    requires Sound(l) && p < |l.planemap| && q < |l.planemap| && p != q
    requires Cell(l, p, Spot(at, l.linesize, r), x) < Spot(at, l.linesize, r) + l.linesize
    ensures OffRows(l, q, at, n, Cell(l, p, Spot(at, l.linesize, r), x))
  {
    var j := Cell(l, p, Spot(at, l.linesize, r), x);
    hide OffRow;
    forall i: nat | i < n ensures OffRow(l, q, Spot(at, l.linesize, i), j) {
      if i == r {
        OtherPlane(l, p, q, Spot(at, l.linesize, i), x);
      } else {
        if i < r { RowsApart(at, l.linesize, i, r); } else { RowsApart(at, l.linesize, r, i); }
        Outside(l, q, Spot(at, l.linesize, i), j);
      }
    }
  }

  lemma {:induction false} RowsApart(at: nat, linesize: nat, i: nat, r: nat)
    requires i < r
    ensures Spot(at, linesize, i) + linesize <= Spot(at, linesize, r)
  {
    SpotAscends(at, linesize, i, r);
  }

  /** No plane disturbs another, whatever the data: decoding plane q leaves every pixel of plane p as it was. */
  lemma PlanesApart(enc: seq<int>, frame: seq<int>, l: Layout, p: nat, q: nat, lp: nat, dp: nat, r: nat, x: nat)
    requires AreBytes(enc) && dp <= |enc| && Sound(l) && p < |l.planemap| && q < |l.planemap| && p != q
    requires |frame| >= Spot(0, l.linesize, l.height)
    requires Cell(l, p, Spot(0, l.linesize, r), x) < Spot(0, l.linesize, r) + l.linesize
    requires Cell(l, p, Spot(0, l.linesize, r), x) < |frame|
    ensures var j := Cell(l, p, Spot(0, l.linesize, r), x);
            DecodeRows(enc, frame, l, q, 0, 0, lp, dp).frame[j] == frame[j]
  {
    PixelOff(l, p, q, 0, l.height, r, x);
    PlaneWritesItsPlaces(enc, frame, l, q, 0, 0, lp, dp, Cell(l, p, Spot(0, l.linesize, r), x));
  }

  // ---- the image, pixel by pixel ------------------------------------------------------------------------------------

  /** The first row of a plane: painted, and left alone by the rows below. */
  lemma FirstRowPixel(frame: seq<int>, l: Layout, p: nat, at: nat, rows: seq<seq<Packet>>, x: nat)
    requires Sound(l) && p < |l.planemap| && rows != [] && |frame| >= Spot(at, l.linesize, |rows|)
    requires (forall k :: 0 <= k < |rows| ==> ValidRow(l, rows[k])) && x < |Expand(rows[0])|
    ensures var j := Cell(l, p, at, x);
            j < |frame| && j < at + l.linesize && PaintRows(frame, l, p, at, rows)[j] == Expand(rows[0])[x]
  {
    hide Paint, OffRows, ValidPackets, EncodeRow, Expand, Spot;
    assert ValidRow(l, rows[0]);
    SpotAdd(at, l.linesize, 1, |rows| - 1);
    OneRow(at, l.linesize);
    RowFits(frame, l, p, at, rows[0]);
    var bytes, start := Expand(rows[0]), at + l.planemap[p];
    Painted(frame, start, l.inc, bytes, x);
    if x < |bytes| - 1 { SpotAscends(start, l.inc, x, |bytes| - 1); }
    LaterRowsOff(l, p, at + l.linesize, |rows| - 1, Cell(l, p, at, x));
    PaintRowsOff(Paint(frame, start, l.inc, bytes), l, p, at + l.linesize, rows[1..], Cell(l, p, at, x));
  }

  lemma {:induction false} RowsPixel(frame: seq<int>, l: Layout, p: nat, at: nat, rows: seq<seq<Packet>>, r: nat,
                                     x: nat)
    requires Sound(l) && p < |l.planemap| && |frame| >= Spot(at, l.linesize, |rows|)
    requires (forall k :: 0 <= k < |rows| ==> ValidRow(l, rows[k])) && r < |rows| && x < |Expand(rows[r])|
    ensures var j := Cell(l, p, Spot(at, l.linesize, r), x);
            && j < |frame| && j < Spot(at, l.linesize, r) + l.linesize
            && PaintRows(frame, l, p, at, rows)[j] == Expand(rows[r])[x]
    decreases |rows|
  {
    hide Paint, ValidPackets, EncodeRow, Expand, Cell, Spot;
    FirstRow(at, l.linesize);
    if r == 0 {
      FirstRowPixel(frame, l, p, at, rows, x);
    } else {
      assert ValidRow(l, rows[0]);
      SpotAdd(at, l.linesize, 1, |rows| - 1);
      OneRow(at, l.linesize);
      RowFits(frame, l, p, at, rows[0]);
      RowsPixel(Paint(frame, at + l.planemap[p], l.inc, Expand(rows[0])), l, p, at + l.linesize, rows[1..], r - 1, x);
      SpotAdd(at, l.linesize, 1, r - 1);
    }
  }

  lemma FirstRow(at: nat, linesize: nat)
    ensures Spot(at, linesize, 0) == at
  {
  }

  lemma LaterRowsOff(l: Layout, p: nat, at: nat, n: nat, j: nat)
    requires Sound(l) && p < |l.planemap| && j < at
    ensures OffRows(l, p, at, n, j)
  {
    forall i: nat | i < n ensures OffRow(l, p, Spot(at, l.linesize, i), j) {
      Outside(l, p, Spot(at, l.linesize, i), j);
    }
  }

  lemma {:induction false} PlanesOff(frame: seq<int>, l: Layout, p: nat, img: Image, q: nat, r: nat, x: nat)
    requires Sound(l) && p + |img| == |l.planemap| && |frame| >= Spot(0, l.linesize, l.height) && ValidPlanes(l, img)
    requires q < p
    requires Cell(l, q, Spot(0, l.linesize, r), x) < Spot(0, l.linesize, r) + l.linesize
    requires Cell(l, q, Spot(0, l.linesize, r), x) < |frame|
    ensures var j := Cell(l, q, Spot(0, l.linesize, r), x);
            PaintPlanes(frame, l, p, img)[j] == frame[j]
    decreases |img|
  {
    hide PaintRows, OffRows, ValidRow, Cell, Spot;
    if img != [] {
      assert ValidPlane(l, img[0]) && ValidPlanes(l, img[1..]);
      PixelOff(l, q, p, 0, l.height, r, x);
      PaintRowsOff(frame, l, p, 0, img[0], Cell(l, q, Spot(0, l.linesize, r), x));
      PlanesOff(PaintRows(frame, l, p, 0, img[0]), l, p + 1, img[1..], q, r, x);
    }
  }

  lemma {:induction false} PlanesPixel(frame: seq<int>, l: Layout, p: nat, img: Image, q: nat, r: nat, x: nat)
    requires Sound(l) && p + |img| == |l.planemap| && |frame| >= Spot(0, l.linesize, l.height) && ValidPlanes(l, img)
    requires p <= q < |l.planemap| && r < l.height && ValidPlane(l, img[q - p]) && x < |Expand(img[q - p][r])|
    ensures var j := Cell(l, q, Spot(0, l.linesize, r), x);
            j < |frame| && PaintPlanes(frame, l, p, img)[j] == Expand(img[q - p][r])[x]
    decreases |img|
  {
    hide PaintRows, Expand, ValidRow, Cell, Spot;
    assert ValidPlane(l, img[0]) && ValidPlanes(l, img[1..]);
    var painted := PaintRows(frame, l, p, 0, img[0]);
    if p == q {
      RowsPixel(frame, l, p, 0, img[0], r, x);
      PlanesOff(painted, l, p + 1, img[1..], q, r, x);
    } else {
      PlanesPixel(painted, l, p + 1, img[1..], q, r, x);
    }
  }

  /** The pixel's place in the source's own terms. */
  lemma CellIs(l: Layout, p: nat, r: nat, x: nat)
    requires p < |l.planemap|
    ensures Cell(l, p, Spot(0, l.linesize, r), x) == r * l.linesize + (l.planemap[p] + x * l.inc)
  {
    SpotIs(0, l.linesize, r);
    SpotIs(Spot(0, l.linesize, r) + l.planemap[p], l.inc, x);
  }

  /** Every pixel of an encoded image is decoded to the place CellIs gives, whatever the other planes are. */
  lemma EveryPixelInPlace(frame: seq<int>, l: Layout, img: Image, p: nat, r: nat, x: nat)
    requires Sound(l) && |img| == |l.planemap| && ValidPlanes(l, img) && |frame| >= Spot(0, l.linesize, l.height)
    requires AreBytes(Encode(img)) && p < |img| && ValidPlane(l, img[p]) && r < l.height && x < |Expand(img[p][r])|
    ensures Decode(Encode(img), frame, l).Ok? && Cell(l, p, Spot(0, l.linesize, r), x) < |frame|
    ensures Decode(Encode(img), frame, l).frame[Cell(l, p, Spot(0, l.linesize, r), x)] == Expand(img[p][r])[x]
  {
    DecodesWhatWasEncoded(frame, l, img);
    hide Decode, Encode, PaintPlanes, Expand, ValidRow, Cell, Spot;
    PlanesPixel(frame, l, 0, img, p, r, x);
  }

  /** An image that can be encoded, for this layout, and a frame it fits. */
  ghost predicate FitsFrame(l: Layout, img: Image, frame: seq<int>) {
    && Sound(l) && |img| == |l.planemap| && ValidPlanes(l, img) && |frame| >= Spot(0, l.linesize, l.height)
    && AreBytes(Encode(img))
  }

  /** The frame after the encoded image was decoded into it. */
  ghost function Output(l: Layout, img: Image, frame: seq<int>): seq<int> {
    if FitsFrame(l, img, frame) then Decode(Encode(img), frame, l).frame else frame
  }

  predicate HasSample(img: Image, p: nat, r: nat, x: nat) { p < |img| && r < |img[p]| && x < |Expand(img[p][r])| }

  /** Pixel `x` of row `r` of a plane. */
  function Sample(img: Image, p: nat, r: nat, x: nat): int {
    if HasSample(img, p, r, x) then Expand(img[p][r])[x] else 0
  }

  /** These bytes stand in the frame from `at` on. */
  predicate Stand(frame: seq<int>, at: nat, bytes: seq<int>) {
    at + |bytes| <= |frame| && frame[at..at + |bytes|] == bytes
  }

  predicate StandsAt(frame: seq<int>, at: nat, bytes: seq<int>, k: nat) {
    k < |bytes| ==> Stand(frame, at + k, [bytes[k]])
  }

  lemma StandTogether(frame: seq<int>, at: nat, bytes: seq<int>)
    requires bytes != [] && forall k: nat :: StandsAt(frame, at, bytes, k)
    ensures Stand(frame, at, bytes)
  {
    assert StandsAt(frame, at, bytes, |bytes| - 1);
    forall k: nat | k < |bytes| ensures frame[at + k] == bytes[k] {
      assert StandsAt(frame, at, bytes, k);
      assert frame[at + k] == frame[at + k..at + k + 1][0];
    }
  }

  /** Where the bytes of a pixel begin. */
  function PixelAt(l: Layout, r: nat, x: nat): nat { r * l.linesize + x * l.inc }

  lemma SampleInPlace(l: Layout, img: Image, frame: seq<int>, p: nat, r: nat, x: nat)
    requires FitsFrame(l, img, frame) && p < |l.planemap| && r < l.height && HasSample(img, p, r, x)
    ensures Stand(Output(l, img, frame), PixelAt(l, r, x) + l.planemap[p], [Sample(img, p, r, x)])
  {
    hide Decode, Encode, Expand, Cell, Spot, ValidRow;
    assert ValidPlane(l, img[p]);
    EveryPixelInPlace(frame, l, img, p, r, x);
    CellIs(l, p, r, x);
  }

  /** The bytes of a pixel: blue, green, red and alpha, or a palette index. */
  function Colors(bits: int, img: Image, r: nat, x: nat): (c: seq<int>)
    ensures c != []
  {
    var red, green, blue := Sample(img, 0, r, x), Sample(img, 1, r, x), Sample(img, 2, r, x);
    if bits == 8 then [red] else if bits == 24 then [blue, green, red] else [blue, green, red, Sample(img, 3, r, x)]
  }

  /**
   * The colours of a decoded pixel on a little-endian machine: the planes are red, green and blue, then alpha, and end
   * as the bytes of the number 0xAARRGGBB, low byte first; a single plane holds palette indices.
   */
  lemma ColorsInPlace(bits: int, padded: bool, l: Layout, img: Image, frame: seq<int>, r: nat, x: nat)
    requires Init(bits, padded, l.height, l.linesize) == Some(l) && FitsFrame(l, img, frame) && r < l.height
    requires forall p: nat :: p < |img| ==> HasSample(img, p, r, x)
    ensures l.inc == (if bits == 8 then 1 else if bits == 24 && !padded then 3 else 4)
    ensures Stand(Output(l, img, frame), PixelAt(l, r, x), Colors(bits, img, r, x))
  {
    hide Output, Sample, Spot, Encode, ValidPlanes, HasSample, Sound, AreBytes, Stand, PixelAt;
    var f, at, bytes := Output(l, img, frame), PixelAt(l, r, x), Colors(bits, img, r, x);
    SampleInPlace(l, img, frame, 0, r, x);
    if bits != 8 {
      SampleInPlace(l, img, frame, 1, r, x);
      SampleInPlace(l, img, frame, 2, r, x);
      if bits == 32 { SampleInPlace(l, img, frame, 3, r, x); }
    }
    forall k: nat ensures StandsAt(f, at, bytes, k) {
      if k < |bytes| {
        var p := if bits == 8 || k == 3 then k else 2 - k;
        assert l.planemap[p] == k && bytes[k] == Sample(img, p, r, x);
      }
    }
    StandTogether(f, at, bytes);
  }

  // ---- rows that do not keep their length ---------------------------------------------------------------------------

  /** A packet longer than what is left of a row's length makes the length wrap around: the row goes on. */
  lemma LengthOverrun(enc: seq<int>, frame: seq<int>, dp: nat, p: Packet, dlen: nat, pix: nat, end: nat, inc: nat)
    requires AreBytes(enc) && Inside(frame, pix, end, inc) && ValidPacket(p) && 0 < dlen < |EncodePacket(p)|
    requires dp + |EncodePacket(p)| <= |enc| && enc[dp..dp + |EncodePacket(p)|] == EncodePacket(p)
    requires Spot(pix, inc, |ExpandPacket(p)|) <= end
    ensures |ExpandPacket(p)| > 0 && Spot(pix, inc, |ExpandPacket(p)| - 1) < |frame|
    ensures DecodeRow(enc, frame, dp, dlen, pix, end, inc)
         == DecodeRow(enc, Paint(frame, pix, inc, ExpandPacket(p)), dp + |EncodePacket(p)|,
                      0x1_0000_0000 + dlen - |EncodePacket(p)|, Spot(pix, inc, |ExpandPacket(p)|), end, inc)
  {
    PacketSizes(p);
    hide DecodeRow, Spot, Paint, AreBytes, EncodePacket, ExpandPacket, ValidPacket;
    FirstPacket(enc, frame, dp, p, dlen, pix, end, inc);
  }

  /** A packet too wide for the rest of the row ends it, behind the packet's first byte. */
  lemma TooWideEndsRow(enc: seq<int>, frame: seq<int>, dp: nat, p: Packet, dlen: nat, pix: nat, end: nat, inc: nat)
    requires AreBytes(enc) && Inside(frame, pix, end, inc) && ValidPacket(p) && dlen > 0
    requires dp + |EncodePacket(p)| <= |enc| && enc[dp..dp + |EncodePacket(p)|] == EncodePacket(p)
    requires Spot(pix, inc, |ExpandPacket(p)|) > end
    ensures DecodeRow(enc, frame, dp, dlen, pix, end, inc) == Ok(frame, dp + 1)
  {
    PacketSizes(p);
    hide Spot, Paint, AreBytes, EncodePacket, ExpandPacket, ValidPacket, Repeat;
    ReadsPacket(enc, dp, p);
    SpotShift(0, inc, |ExpandPacket(p)|, pix);
  }

  // ---- data cut short -----------------------------------------------------------------------------------------------

  /** From `at` on there is only a part of the piece, and no more. */
  ghost predicate Cut(enc: seq<int>, at: nat, piece: seq<int>) {
    at <= |enc| < at + |piece| && enc[at..] == piece[..|enc| - at]
  }

  lemma CutParts(enc: seq<int>, at: nat, a: seq<int>, b: seq<int>)
    requires Cut(enc, at, a + b)
    ensures |enc| < at + |a| ==> Cut(enc, at, a)
    ensures |enc| >= at + |a| ==> enc[at..at + |a|] == a && Cut(enc, at + |a|, b)
  {
    var s := enc[at..];
    if |enc| < at + |a| {
      assert s == (a + b)[..|s|] == a[..|s|];
    } else {
      assert enc[at..at + |a|] == s[..|a|] == (a + b)[..|s|][..|a|] == a;
      assert enc[at + |a|..] == s[|a|..] == b[..|s| - |a|];
    }
  }

  /** A packet that is not there in full. */
  lemma PacketCut(enc: seq<int>, frame: seq<int>, dp: nat, p: Packet, dlen: nat, pix: nat, end: nat, inc: nat)
    requires AreBytes(enc) && Inside(frame, pix, end, inc) && ValidPacket(p) && Cut(enc, dp, EncodePacket(p))
    requires dlen > 0
    requires Spot(pix, inc, |ExpandPacket(p)|) <= end
    ensures DecodeRow(enc, frame, dp, dlen, pix, end, inc).Invalid?
  {
    hide Spot, Paint;
    if |enc| - dp > 1 {
      assert enc[dp] == enc[dp..][0] == EncodePacket(p)[0];
      SpotShift(0, inc, |ExpandPacket(p)|, pix);
    }
  }

  lemma {:induction false} RowCut(enc: seq<int>, frame: seq<int>, dp: nat, ps: seq<Packet>, pix: nat, end: nat,
                                  inc: nat)
    requires AreBytes(enc) && Inside(frame, pix, end, inc) && ValidPackets(ps) && Cut(enc, dp, EncodeRow(ps))
    requires Spot(pix, inc, |Expand(ps)|) <= end
    ensures DecodeRow(enc, frame, dp, |EncodeRow(ps)|, pix, end, inc).Invalid?
    decreases |ps|
  {
    hide DecodeRow, Paint, EncodePacket, ExpandPacket, ValidPacket, AreBytes, Spot, Cut;
    CutNotEmpty(enc, dp, EncodeRow(ps));
    var p, rest := ps[0], ps[1..];
    assert ValidPacket(p) && ValidPackets(rest);
    PacketSizes(p);
    var a, b := ExpandPacket(p), Expand(rest);
    SpotAdd(pix, inc, |a|, |b|);
    SpotAscends(pix, inc, |a| + |b| - 1, |a| + |b|);
    CutParts(enc, dp, EncodePacket(p), EncodeRow(rest));
    CutAt(enc, dp, EncodeRow(ps));
    if |enc| < dp + |EncodePacket(p)| {
      PacketCut(enc, frame, dp, p, |EncodeRow(ps)|, pix, end, inc);
    } else {
      FirstPacket(enc, frame, dp, p, |EncodeRow(ps)|, pix, end, inc);
      RowCut(enc, Paint(frame, pix, inc, a), dp + |EncodePacket(p)|, rest, Spot(pix, inc, |a|), end, inc);
    }
  }

  lemma CutNotEmpty(enc: seq<int>, at: nat, piece: seq<int>)
    requires Cut(enc, at, piece)
    ensures piece != []
  {
  }

  lemma CutAt(enc: seq<int>, at: nat, piece: seq<int>)
    requires Cut(enc, at, piece)
    ensures at <= |enc| < at + |piece|
  {
  }

  lemma {:induction false} RowsCut(enc: seq<int>, frame: seq<int>, l: Layout, p: nat, row: nat, at: nat, lp: nat,
                                   dp: nat, rows: seq<seq<Packet>>)
    requires AreBytes(enc) && Sound(l) && p < |l.planemap| && row + |rows| == l.height
    requires |frame| >= Spot(at, l.linesize, |rows|) && forall k :: 0 <= k < |rows| ==> ValidRow(l, rows[k])
    requires lp + 2 * row + 2 * |rows| <= |enc| && enc[lp + 2 * row..lp + 2 * row + 2 * |rows|] == Lengths(rows)
    requires Cut(enc, dp, PlaneData(rows))
    ensures DecodeRows(enc, frame, l, p, row, at, lp, dp).Invalid?
    decreases |rows|
  {
    hide DecodeRow, Paint, EncodeRow, Expand, ValidPackets, AreBytes, Spot, Sound, Be16, Inside, Lengths, PlaneData,
        Cut;
    CutNotEmpty(enc, dp, PlaneData(rows));
    NoRows();
    var ps, rest := rows[0], rows[1..];
    assert ValidRow(l, ps);
    SpotAdd(at, l.linesize, 1, |rest|);
    OneRow(at, l.linesize);
    RowFits(frame, l, p, at, ps);
    RowInside(frame, l, p, at);
    FirstLength(enc, row, lp, rows);
    CutAt(enc, dp, PlaneData(rows));
    assert PlaneData(rows) == EncodeRow(ps) + PlaneData(rest) by { PlaneParts(rows); }
    CutParts(enc, dp, EncodeRow(ps), PlaneData(rest));
    var start := at + l.planemap[p];
    if |enc| < dp + |EncodeRow(ps)| {
      RowCut(enc, frame, dp, ps, start, start + l.linesize, l.inc);
    } else {
      RowRoundTrip(enc, frame, dp, ps, start, start + l.linesize, l.inc);
      RowsCut(enc, Paint(frame, start, l.inc, Expand(ps)), l, p, row + 1, at + l.linesize, lp, dp + |EncodeRow(ps)|,
              rest);
    }
  }

  lemma {:induction false} PlanesCut(enc: seq<int>, frame: seq<int>, l: Layout, p: nat, lp: nat, dp: nat, img: Image)
    requires AreBytes(enc) && Sound(l) && p + |img| == |l.planemap| && |frame| >= Spot(0, l.linesize, l.height)
    requires ValidPlanes(l, img)
    requires lp + |Header(img)| <= |enc| && enc[lp..lp + |Header(img)|] == Header(img) && Cut(enc, dp, Data(img))
    ensures DecodePlanes(enc, frame, l, p, lp, dp).Invalid?
    decreases |img|
  {
    hide DecodeRows, PaintRows, Lengths, PlaneData, ValidRow, AreBytes, Sound, Cut;
    CutNotEmpty(enc, dp, Data(img));
    CutAt(enc, dp, Data(img));
    var rows, rest := img[0], img[1..];
    assert ValidPlane(l, rows) && ValidPlanes(l, rest);
    SliceParts(enc, lp, Lengths(rows), Header(rest));
    CutParts(enc, dp, PlaneData(rows), Data(rest));
    if |enc| < dp + |PlaneData(rows)| {
      RowsCut(enc, frame, l, p, 0, 0, lp, dp, rows);
    } else {
      RowsRoundTrip(enc, frame, l, p, 0, 0, lp, dp, rows);
      PlanesCut(enc, PaintRows(frame, l, p, 0, rows), l, p + 1, lp + 2 * l.height, dp + |PlaneData(rows)|, rest);
    }
  }

  /** An encoded image cut short anywhere is an error. */
  lemma CutShortIsInvalid(frame: seq<int>, l: Layout, img: Image, k: nat)
    requires Sound(l) && |img| == |l.planemap| && ValidPlanes(l, img) && |frame| >= Spot(0, l.linesize, l.height)
    requires AreBytes(Encode(img)) && k < |Encode(img)|
    ensures AreBytes(Encode(img)[..k]) && Decode(Encode(img)[..k], frame, l).Invalid?
  {
    HeaderSize(l, img);
    hide Data, Header, DecodePlanes, ValidPlanes;
    var enc, h := Encode(img)[..k], |Header(img)|;
    if k >= h {
      assert enc[0..0 + h] == Encode(img)[..h] == Header(img);
      assert Encode(img)[h..] == Data(img);
      assert enc[h..] == Encode(img)[h..][..k - h];
      PlanesCut(enc, frame, l, 0, 0, h, img);
    }
  }
}
