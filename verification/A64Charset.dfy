/**
 * render_charset of libavcodec/a64multienc.c: the lookup tables built in one pass, the characters drawn from them, and
 * the loop that steps back to draw a character again.
 */
module A64Charset {
  import opened Basics

  const DITHERSTEPS := 8
  const CHARSET_CHARS := 256

  /** The luma of the palette: 4 colours, or 5 in the mode that needs the colour RAM. */
  predicate Ready(luma: seq<int>, five: bool) {
    && |luma| == 4 + One(five) && luma[0] == 0 && luma[|luma| - 1] <= 255
    && forall i, j :: 0 <= i < j < |luma| ==> luma[i] < luma[j]
  }

  /** The luma of a colour of the palette, truncated to an integer. */
  function Luma(r: nat, g: nat, b: nat): int { (r as real * 0.30 + g as real * 0.59 + b as real * 0.11).Floor }

  /** The gray gradient of the encoder: black, dark gray, gray, light gray, white. */
  lemma GradientReady()
    ensures Luma(0, 0, 0) == 0 && Luma(0x44, 0x44, 0x44) == 68 && Luma(0x6c, 0x6c, 0x6c) == 108
    ensures Luma(0x95, 0x95, 0x95) == 149 && Luma(0xff, 0xff, 0xff) == 255
    ensures Ready([0, 68, 108, 149], false) && Ready([0, 68, 108, 149, 255], true)
  {
  }

  // ---- the tables in closed form ------------------------------------------------------------------------------

  /** The largest i with luma[i] <= a. */
  function Level(luma: seq<int>, a: int): (i: nat)
    requires luma != [] && luma[0] <= a
    ensures i < |luma| && luma[i] <= a && forall j :: i < j < |luma| ==> a < luma[j]
  {
    LevelFrom(luma, a, |luma| - 1)
  }

  function LevelFrom(luma: seq<int>, a: int, n: nat): (i: nat)
    requires n < |luma| && luma[0] <= a && forall j :: n < j < |luma| ==> a < luma[j]
    ensures i < |luma| && luma[i] <= a && forall j :: i < j < |luma| ==> a < luma[j]
  {
    if luma[n] <= a then n else LevelFrom(luma, a, n - 1)
  }

  lemma LevelIs(luma: seq<int>, five: bool, a: int, i: nat)
    requires Ready(luma, five) && i < |luma| && luma[i] <= a && (i + 1 < |luma| ==> a < luma[i + 1])
    ensures Level(luma, a) == i
  {
  }

  function Next(luma: seq<int>, a: int): nat
    requires luma != [] && luma[0] <= a
  {
    if Level(luma, a) + 1 < |luma| then Level(luma, a) + 1 else |luma| - 1
  }

  /** The linear ramp from one luma to the next, in DITHERSTEPS steps; flat at the top. */
  function Ramp(luma: seq<int>, a: int): (d: int)
    requires luma != [] && luma[0] <= a
  {
    var i := Level(luma, a);
    if i + 1 < |luma| then (a - luma[i]) * (DITHERSTEPS - 1) / (luma[i + 1] - luma[i]) else 0
  }

  lemma RampRange(luma: seq<int>, a: int)
    requires luma != [] && luma[0] <= a
    ensures 0 <= Ramp(luma, a) < DITHERSTEPS
    ensures a == luma[Level(luma, a)] ==> Ramp(luma, a) == 0
  {
    var i := Level(luma, a);
    if i + 1 < |luma| {
      Quotient((a - luma[i]) * (DITHERSTEPS - 1), luma[i + 1] - luma[i]);
    }
  }

  lemma Quotient(x: int, y: int)
    requires 0 <= x < DITHERSTEPS * y
    ensures 0 <= x / y < DITHERSTEPS
    ensures x == 0 ==> x / y == 0
  {
    var q := x / y;
    assert x == q * y + x % y;
    assert q >= DITHERSTEPS ==> q * y >= DITHERSTEPS * y;
    assert q < 0 ==> q * y <= -y;
  }

  lemma EntryIs(luma: seq<int>, five: bool, a: int, i: nat)
    requires Ready(luma, five) && i < |luma| && luma[i] <= a && (i + 1 < |luma| ==> a < luma[i + 1])
    ensures luma != [] && luma[0] <= a && Level(luma, a) == i && Next(luma, a) == Min(i + 1, |luma| - 1)
    ensures i + 1 == |luma| ==> Ramp(luma, a) == 0
  {
    LevelIs(luma, five, a, i);
  }

  /** The tables as render_charset builds them in one pass over a. */
  method BuildTables(luma: seq<int>, five: bool) returns (index1: array<int>, index2: array<int>, dither: array<int>)
    requires Ready(luma, five)
    ensures fresh(index1) && fresh(index2) && fresh(dither)
    ensures index1.Length == index2.Length == dither.Length == 256
    ensures forall a :: 0 <= a < 256 ==> index1[a] == Level(luma, a)
    ensures forall a :: 0 <= a < 256 ==> index2[a] == Next(luma, a)
    ensures forall a :: 0 <= a < 256 ==> dither[a] == Ramp(luma, a)
  {
    hide Level, Next, Ramp;
    index1, index2, dither := new int[256], new int[256], new int[256];
    var last := |luma| - 1;
    var i, a := 0, 0;
    while a < 256
      invariant 0 <= a <= 256 && 0 <= i <= last && luma[i] <= a && (i < last ==> a <= luma[i + 1])
      invariant forall k :: 0 <= k < a ==> index1[k] == Level(luma, k)
      invariant forall k :: 0 <= k < a ==> index2[k] == Next(luma, k)
      invariant forall k :: 0 <= k < (if i < last then luma[i] else a) ==> dither[k] == Ramp(luma, k)
    {
      if i < last && a == luma[i + 1] {
        FillRamp(luma, five, dither, i);
        i := i + 1;
      }
      EntryIs(luma, five, a, i);
      if i >= last { dither[a] := 0; }
      index1[a] := i;
      index2[a] := Min(i + 1, last);
      a := a + 1;
    }
  }

  /** One segment of the ramp, both ends included; the upper end is written again with the segment after it. */
  method FillRamp(luma: seq<int>, five: bool, dither: array<int>, i: nat)
    requires Ready(luma, five) && i + 1 < |luma| && dither.Length == 256
    modifies dither
    ensures forall k :: 0 <= k < luma[i] ==> dither[k] == old(dither[k])
    ensures forall k :: luma[i] <= k < luma[i + 1] ==> dither[k] == Ramp(luma, k)
  {
    var distance := luma[i + 1] - luma[i];
    var b := 0;
    while b <= distance
      invariant 0 <= b <= distance + 1
      invariant forall k :: 0 <= k < luma[i] ==> dither[k] == old(dither[k])
      invariant forall k :: luma[i] <= k < luma[i] + b && k < luma[i + 1] ==> dither[k] == Ramp(luma, k)
    {
      if b < distance { LevelIs(luma, five, luma[i] + b, i); }
      dither[luma[i] + b] := b * (DITHERSTEPS - 1) / distance;
      b := b + 1;
    }
  }

  // ---- one character ---------------------------------------------------------------------------------------------

  /** interlaced_dither_patterns: the second four rows of every pattern repeat the first four. */
  function PatternRow(d: nat, r: nat): (s: string)
    ensures |s| == 4
    ensures d == 0 ==> s == "0000"
  {
    var q := r % 4;
    match d
    case 0 => "0000"
    case 1 => if q == 0 then "1010" else "0000"
    case 2 => if q == 0 then "1010" else if q == 3 then "0101" else "0000"
    case 3 => if q == 0 then "1010" else if q == 3 then "0000" else "0101"
    case 4 => if q == 0 || q == 3 then "1010" else "0101"
    case 5 => if q == 1 then "0101" else if q == 2 then "1111" else "1010"
    case 6 => if q == 0 then "1010" else if q == 3 then "0101" else "1111"
    case 7 => if q == 3 then "0101" else "1111"
    case _ => "1111"
  }

  predicate IsByte(b: int) { 0 <= b < 256 }

  /** A character: 8 rows of 4 pixels, each a luma. */
  predicate IsBlock(block: seq<int>) { |block| == 32 && forall k :: 0 <= k < 32 ==> IsByte(block[k]) }

  /**
   * The colour index drawn for a pixel: the one at or below its luma or the one above, as the pattern of its place
   * says.
   */
  function Pick(luma: seq<int>, pix: int, y: nat, field: nat, x: nat): (k: nat)
    requires luma != [] && luma[0] <= pix && x < 4
  {
    RampRange(luma, pix);
    if PatternRow(Ramp(luma, pix), y % 4 * 2 + field)[x] == '1' then Next(luma, pix) else Level(luma, pix)
  }

  /** The two bits that stand for it. */
  function Code(k: nat): (c: nat)
    ensures c < 4
  {
    3 - k % 4
  }

  /** The first `n` pixels of a row, two bits each. */
  function Bits(luma: seq<int>, block: seq<int>, y: nat, field: nat, n: nat): nat
    requires luma != [] && luma[0] == 0 && IsBlock(block) && y < 8 && n <= 4
  {
    if n == 0 then 0
    else Bits(luma, block, y, field, n - 1) * 4 + Code(Pick(luma, Pixel(block, y, n - 1), y, field, n - 1))
  }

  function Pixel(block: seq<int>, y: nat, x: nat): (p: int)
    requires IsBlock(block) && y < 8 && x < 4
    ensures 0 <= p < 256
  {
    assert IsByte(block[y * 4 + x]);
    block[y * 4 + x]
  }

  /** How much the first `n` pixels rise above colour 3, and fall below colour 1. */
  function Above(luma: seq<int>, block: seq<int>, n: nat): int
    requires |luma| >= 4 && luma[0] == 0 && IsBlock(block) && n <= 32
  {
    if n == 0 then 0 else
      assert IsByte(block[n - 1]);
      Above(luma, block, n - 1) + if Level(luma, block[n - 1]) >= 3 then block[n - 1] - luma[3] else 0
  }

  function Below(luma: seq<int>, block: seq<int>, n: nat): int
    requires |luma| >= 4 && luma[0] == 0 && IsBlock(block) && n <= 32
  {
    if n == 0 then 0 else
      assert IsByte(block[n - 1]);
      Below(luma, block, n - 1) + if Level(luma, block[n - 1]) < 1 then luma[1] - block[n - 1] else 0
  }

  lemma {:induction false} AboveSign(luma: seq<int>, five: bool, block: seq<int>, n: nat)
    requires Ready(luma, five) && IsBlock(block) && n <= 32
    ensures Above(luma, block, n) >= 0
    ensures Above(luma, block, n) == 0 <==> forall k :: 0 <= k < n ==> block[k] <= luma[3]
  {
    if n > 0 { AboveSign(luma, five, block, n - 1); }
  }

  lemma {:induction false} BelowSign(luma: seq<int>, five: bool, block: seq<int>, n: nat)
    requires Ready(luma, five) && IsBlock(block) && n <= 32
    ensures Below(luma, block, n) >= 0
    ensures Below(luma, block, n) == 0 <==> forall k :: 0 <= k < n ==> luma[1] <= block[k]
  {
    if n > 0 {
      BelowSign(luma, five, block, n - 1);
      assert IsByte(block[n - 1]);
    }
  }

  /** Too bright and too dark pixels in one character, in the mode where both would need the colour RAM. */
  predicate Clashes(luma: seq<int>, five: bool, block: seq<int>)
    requires |luma| >= 4 && luma[0] == 0 && IsBlock(block)
  {
    Above(luma, block, 32) > 0 && Below(luma, block, 32) > 0 && five
  }

  /** The character after the adjustment: the lesser side is given up. */
  function Adjusted(luma: seq<int>, five: bool, block: seq<int>): (b: seq<int>)
    requires Ready(luma, five) && IsBlock(block)
    ensures IsBlock(b)
  {
    if !Clashes(luma, five, block) then block
    else if Below(luma, block, 32) > Above(luma, block, 32) then Capped(block, luma[3])
    else Raised(block, luma[1])
  }

  function Capped(block: seq<int>, top: int): (b: seq<int>)
    requires IsBlock(block) && IsByte(top)
    ensures IsBlock(b) && forall k :: 0 <= k < 32 ==> b[k] == Min(top, block[k])
  {
    assert forall k :: 0 <= k < 32 ==> IsByte(block[k]);
    seq(32, k requires 0 <= k < 32 => Min(top, block[k]))
  }

  function Raised(block: seq<int>, bottom: int): (b: seq<int>)
    requires IsBlock(block) && IsByte(bottom)
    ensures IsBlock(b) && forall k :: 0 <= k < 32 ==> b[k] == Max(bottom, block[k])
  {
    assert forall k :: 0 <= k < 32 ==> IsByte(block[k]);
    seq(32, k requires 0 <= k < 32 => Max(bottom, block[k]))
  }

  /** One redo is enough: an adjusted character does not clash again. */
  lemma OneRedo(luma: seq<int>, five: bool, block: seq<int>)
    requires Ready(luma, five) && IsBlock(block)
    ensures !Clashes(luma, five, Adjusted(luma, five, block))
    ensures Adjusted(luma, five, Adjusted(luma, five, block)) == Adjusted(luma, five, block)
  {
    var b := Adjusted(luma, five, block);
    AboveSign(luma, five, b, 32);
    BelowSign(luma, five, b, 32);
  }

  /** The colour RAM bit of a character. */
  predicate Bright(luma: seq<int>, block: seq<int>)
    requires |luma| >= 4 && luma[0] == 0 && IsBlock(block)
  {
    Above(luma, block, 32) > 0
  }

  // ---- what the display shows ---------------------------------------------------------------------------------------

  /**
   * How the machine reads two bits: with five colours, code 3 is the colour in the colour RAM, the brightest or the
   * darkest.
   */
  function Shown(code: nat, bright: bool, five: bool): int { if code == 3 && five && bright then 4 else 3 - code }

  /** Although indices 0 and 4 share a code, every pixel of a rendered character shows the index picked for it. */
  lemma ShowsWhatWasPicked(luma: seq<int>, five: bool, block: seq<int>, y: nat, field: nat, x: nat)
    requires Ready(luma, five) && IsBlock(block) && y < 8 && field < 2 && x < 4
    ensures var b := Adjusted(luma, five, block);
            var k := Pick(luma, Pixel(b, y, x), y, field, x);
            Shown(Code(k), Bright(luma, b), five) == k
  {
    hide Adjusted, Ramp, PatternRow, Above, Below, Level, Next, Pick, Code, Shown;
    var b := Adjusted(luma, five, block);
    OneRedo(luma, five, block);
    AboveSign(luma, five, b, 32);
    BelowSign(luma, five, b, 32);
    var pix := Pixel(b, y, x);
    assert pix == b[y * 4 + x] && IsByte(pix);
    PickRange(luma, five, pix, y, field, x);
    CodeShowsIndex(Pick(luma, pix, y, field, x), Bright(luma, b), five);
  }

  lemma CodeShowsIndex(k: nat, bright: bool, five: bool)
    requires k <= 4 && (if five && bright then k >= 1 else k <= 3)
    ensures Shown(Code(k), bright, five) == k
  {
  }

  lemma PickRange(luma: seq<int>, five: bool, pix: int, y: nat, field: nat, x: nat)
    requires Ready(luma, five) && IsByte(pix) && y < 8 && field < 2 && x < 4
    ensures Pick(luma, pix, y, field, x) < |luma|
    ensures pix <= luma[3] ==> Pick(luma, pix, y, field, x) <= 3
    ensures luma[1] <= pix ==> Pick(luma, pix, y, field, x) >= 1
  {
    RampRange(luma, pix);
    if pix == luma[3] { LevelIs(luma, five, pix, 3); }
  }

  /** How much two characters differ in all. */
  function Distance(a: seq<int>, b: seq<int>): int
    requires |a| == |b|
  {
    if a == [] then 0
    else
      var n := |a| - 1;
      Distance(a[..n], b[..n]) + if a[n] < b[n] then b[n] - a[n] else a[n] - b[n]
  }

  lemma {:induction false} CappedDistance(luma: seq<int>, five: bool, block: seq<int>, n: nat)
    requires Ready(luma, five) && IsBlock(block) && n <= 32
    ensures Distance(block[..n], Capped(block, luma[3])[..n]) == Above(luma, block, n)
  {
    if n > 0 {
      CappedDistance(luma, five, block, n - 1);
      var b := Capped(block, luma[3]);
      assert IsByte(block[n - 1]);
      assert block[..n][..n - 1] == block[..n - 1] && b[..n][..n - 1] == b[..n - 1];
      if block[n - 1] == luma[3] { LevelIs(luma, five, block[n - 1], 3); }
    }
  }

  lemma {:induction false} RaisedDistance(luma: seq<int>, five: bool, block: seq<int>, n: nat)
    requires Ready(luma, five) && IsBlock(block) && n <= 32
    ensures Distance(block[..n], Raised(block, luma[1])[..n]) == Below(luma, block, n)
  {
    if n > 0 {
      RaisedDistance(luma, five, block, n - 1);
      var b := Raised(block, luma[1]);
      assert IsByte(block[n - 1]);
      assert block[..n][..n - 1] == block[..n - 1] && b[..n][..n - 1] == b[..n - 1];
    }
  }

  /** The adjustment changes a character by no more than it must: by the lesser of its two excesses. */
  lemma AdjustedLeast(luma: seq<int>, five: bool, block: seq<int>)
    requires Ready(luma, five) && IsBlock(block)
    ensures var change := Distance(block, Adjusted(luma, five, block));
            if Clashes(luma, five, block) then change == Min(Above(luma, block, 32), Below(luma, block, 32))
            else Adjusted(luma, five, block) == block
  {
    hide Distance;
    CappedDistance(luma, five, block, 32);
    RaisedDistance(luma, five, block, 32);
    assert block[..32] == block && Capped(block, luma[3])[..32] == Capped(block, luma[3]);
    assert Raised(block, luma[1])[..32] == Raised(block, luma[1]);
  }

  /** The luma of the colours drawn for one row of four equal pixels in one field. */
  function RowLuma(luma: seq<int>, five: bool, a: int, y: nat, field: nat): int
    requires Ready(luma, five) && IsByte(a) && y < 8 && field < 2
  {
    PickRange(luma, five, a, y, field, 0);
    PickRange(luma, five, a, y, field, 1);
    PickRange(luma, five, a, y, field, 2);
    PickRange(luma, five, a, y, field, 3);
    luma[Pick(luma, a, y, field, 0)] + luma[Pick(luma, a, y, field, 1)]
    + luma[Pick(luma, a, y, field, 2)] + luma[Pick(luma, a, y, field, 3)]
  }

  /** How many places of a pattern row take the brighter colour. */
  function Ones(s: string): nat
    requires |s| == 4
  {
    One(s[0] == '1') + One(s[1] == '1') + One(s[2] == '1') + One(s[3] == '1')
  }

  /** Of the sixteen places of a pattern, two are bright for each step. */
  lemma PatternShare(d: nat)
    requires d <= DITHERSTEPS
    ensures Ones(PatternRow(d, 0)) + Ones(PatternRow(d, 1)) + Ones(PatternRow(d, 2)) + Ones(PatternRow(d, 3)) == 2 * d
  {
  }

  /** A pixel of the row is the darker colour's luma, and a step more where the pattern is bright. */
  lemma PixelShare(luma: seq<int>, five: bool, a: int, y: nat, field: nat, x: nat)
    requires Ready(luma, five) && IsByte(a) && y < 8 && field < 2 && x < 4
    ensures 0 <= Ramp(luma, a) < DITHERSTEPS && Pick(luma, a, y, field, x) < |luma|
    ensures var low, high := luma[Level(luma, a)], luma[Next(luma, a)];
            luma[Pick(luma, a, y, field, x)]
            == low + One(PatternRow(Ramp(luma, a), y % 2 * 2 + field)[x] == '1') * (high - low)
  {
    RampRange(luma, a);
    PickRange(luma, five, a, y, field, x);
    SameRow(Ramp(luma, a), y, field);
    hide Ramp, Level, PatternRow, Ready;
  }

  lemma SameRow(d: nat, y: nat, field: nat)
    requires y < 8 && field < 2
    ensures PatternRow(d, y % 4 * 2 + field) == PatternRow(d, y % 2 * 2 + field)
  {
    assert (y % 4 * 2 + field) % 4 == (y % 2 * 2 + field) % 4;
  }

  lemma RowShare(luma: seq<int>, five: bool, a: int, y: nat, field: nat)
    requires Ready(luma, five) && IsByte(a) && y < 8 && field < 2
    ensures 0 <= Ramp(luma, a) < DITHERSTEPS
    ensures var low, high := luma[Level(luma, a)], luma[Next(luma, a)];
            RowLuma(luma, five, a, y, field)
            == 4 * low + Ones(PatternRow(Ramp(luma, a), y % 2 * 2 + field)) * (high - low)
  {
    PixelShare(luma, five, a, y, field, 0);
    PixelShare(luma, five, a, y, field, 1);
    PixelShare(luma, five, a, y, field, 2);
    PixelShare(luma, five, a, y, field, 3);
    hide Ramp, Level, Next, PatternRow, Ready, Pick;
    var s := PatternRow(Ramp(luma, a), y % 2 * 2 + field);
    Shares(One(s[0] == '1'), One(s[1] == '1'), One(s[2] == '1'), One(s[3] == '1'),
           luma[Next(luma, a)] - luma[Level(luma, a)]);
  }

  lemma Shares(a: int, b: int, c: int, d: int, step: int)
    ensures a * step + b * step + c * step + d * step == (a + b + c + d) * step
  {
  }

  /** Two lines in both fields go through a whole pattern. */
  lemma AreaShare(luma: seq<int>, five: bool, a: int, y: nat)
    requires Ready(luma, five) && IsByte(a) && y < 8 && y % 2 == 0
    ensures var d, low, high := Ramp(luma, a), luma[Level(luma, a)], luma[Next(luma, a)];
            RowLuma(luma, five, a, y, 0) + RowLuma(luma, five, a, y, 1)
            + RowLuma(luma, five, a, y + 1, 0) + RowLuma(luma, five, a, y + 1, 1) == 16 * low + 2 * d * (high - low)
  {
    hide RowLuma, Ramp, Level, PatternRow, Ones;
    RowShare(luma, five, a, y, 0);
    RowShare(luma, five, a, y, 1);
    RowShare(luma, five, a, y + 1, 0);
    RowShare(luma, five, a, y + 1, 1);
    var d := Ramp(luma, a);
    PatternShare(d);
    assert y % 2 == 0 && (y + 1) % 2 == 1;
    FourRows(luma[Level(luma, a)], luma[Next(luma, a)] - luma[Level(luma, a)], Ones(PatternRow(d, 0)),
             Ones(PatternRow(d, 1)), Ones(PatternRow(d, 2)), Ones(PatternRow(d, 3)), d);
  }

  lemma FourRows(low: int, step: int, a: int, b: int, c: int, e: int, d: int)
    requires a + b + c + e == 2 * d
    ensures (4 * low + a * step) + (4 * low + b * step) + (4 * low + c * step) + (4 * low + e * step)
         == 16 * low + 2 * d * step
  {
    Shares(a, b, c, e, step);
  }

  /**
   * An even area of any luma is shown, over two lines and both fields, no brighter on average than it is, and darker by
   * less than a quarter of the step to the next colour; above the brightest colour it is shown in that colour.
   */
  lemma EvenArea(luma: seq<int>, five: bool, a: int, y: nat)
    requires Ready(luma, five) && IsByte(a) && y < 8 && y % 2 == 0
    ensures var i := Level(luma, a);
            var shown := RowLuma(luma, five, a, y, 0) + RowLuma(luma, five, a, y, 1)
                         + RowLuma(luma, five, a, y + 1, 0) + RowLuma(luma, five, a, y + 1, 1);
            if i + 1 < |luma| then 16 * a - 4 * (luma[i + 1] - luma[i]) < shown <= 16 * a else shown == 16 * luma[i]
  {
    hide RowLuma, Level;
    AreaShare(luma, five, a, y);
    var i := Level(luma, a);
    if i + 1 < |luma| {
      RampClose(a - luma[i], luma[i + 1] - luma[i]);
    } else {
      Nothing(Ramp(luma, a));
    }
  }

  lemma Nothing(d: int)
    ensures 2 * d * 0 == 0
  {
  }

  lemma RampClose(x: nat, dist: nat)
    requires x < dist
    ensures var d := x * (DITHERSTEPS - 1) / dist; 16 * x - 4 * dist < 2 * d * dist <= 16 * x
  {
    var d, r := x * (DITHERSTEPS - 1) / dist, x * (DITHERSTEPS - 1) % dist;
    assert 7 * x == d * dist + r;
    assert 2 * d * dist == 2 * (d * dist);
  }

  function Pow4(n: nat): (p: nat)
    ensures p > 0
  {
    if n == 0 then 1 else 4 * Pow4(n - 1)
  }

  /** The codes of a row's pixels can be read off its byte, leftmost pixel in the highest bits. */
  lemma {:induction false} BitsReadBack(luma: seq<int>, block: seq<int>, y: nat, field: nat, n: nat, x: nat)
    requires luma != [] && luma[0] == 0 && IsBlock(block) && y < 8 && x < n <= 4
    ensures Bits(luma, block, y, field, n) / Pow4(n - 1 - x) % 4 == Code(Pick(luma, Pixel(block, y, x), y, field, x))
  {
    hide Pick, Code;
    if x < n - 1 {
      BitsReadBack(luma, block, y, field, n - 1, x);
      var b, c := Bits(luma, block, y, field, n - 1), Code(Pick(luma, Pixel(block, y, n - 1), y, field, n - 1));
      DigitOff(b, c, Pow4(n - 2 - x));
    }
  }

  lemma DigitOff(b: nat, c: nat, p: nat)
    requires c < 4 && p > 0
    ensures (b * 4 + c) / (4 * p) == b / p
  {
    var q, r := b / p, b % p;
    assert b == q * p + r;
    assert b * 4 + c == q * (4 * p) + (4 * r + c);
    QuotientIs(b * 4 + c, q, 4 * r + c, 4 * p);
  }

  lemma QuotientIs(a: nat, q: nat, r: nat, d: nat)
    requires d > 0 && r < d && a == q * d + r
    ensures a / d == q
  {
    var k := a / d;
    assert a == k * d + a % d;
    assert k < q ==> (k + 1) * d <= q * d;
    assert k > q ==> (q + 1) * d <= k * d;
  }

  // ---- the whole charset --------------------------------------------------------------------------------------------

  /** Character `c` of the code book. */
  function Block(cb: seq<int>, c: nat): seq<int>
    requires |cb| == CHARSET_CHARS * 32 && c < CHARSET_CHARS
  {
    cb[c * 32..c * 32 + 32]
  }

  ghost predicate Book(cb: seq<int>) {
    |cb| == CHARSET_CHARS * 32 && forall c :: 0 <= c < CHARSET_CHARS ==> IsBlock(Block(cb, c))
  }

  /** How far a pixel is above colour 3, or below colour 1. */
  function Rise(luma: seq<int>, pix: int): int
    requires |luma| >= 4 && luma[0] == 0 <= pix
  {
    if Level(luma, pix) >= 3 then pix - luma[3] else 0
  }

  function Fall(luma: seq<int>, pix: int): int
    requires |luma| >= 4 && luma[0] == 0 <= pix
  {
    if Level(luma, pix) < 1 then luma[1] - pix else 0
  }

  lemma SumsStep(luma: seq<int>, block: seq<int>, y: nat, x: nat)
    requires |luma| >= 4 && luma[0] == 0 && IsBlock(block) && y < 8 && x < 4
    ensures Above(luma, block, y * 4 + x + 1) == Above(luma, block, y * 4 + x) + Rise(luma, Pixel(block, y, x))
    ensures Below(luma, block, y * 4 + x + 1) == Below(luma, block, y * 4 + x) + Fall(luma, Pixel(block, y, x))
  {
  }

  /** One pixel: its two bits in each field, and what it adds to the two sums. */
  method RenderPixel(luma: seq<int>, five: bool, index1: array<int>, index2: array<int>, dither: array<int>,
                     pix: int, y: nat, x: nat)
    returns (code1: int, code2: int, rise: int, fall: int)
    requires Ready(luma, five) && Tables(luma, index1[..], index2[..], dither[..]) && IsByte(pix) && y < 8 && x < 4
    ensures code1 == Code(Pick(luma, pix, y, 0, x)) && code2 == Code(Pick(luma, pix, y, 1, x))
    ensures rise == Rise(luma, pix) && fall == Fall(luma, pix)
  {
    TablesAt(luma, index1[..], index2[..], dither[..], pix);
    RampRange(luma, pix);
    hide Level, Next, Ramp, PatternRow, Tables;
    rise := if index1[pix] >= 3 then pix - luma[3] else 0;
    fall := if index1[pix] < 1 then luma[1] - pix else 0;
    var pattern1, pattern2 := PatternRow(dither[pix], y % 4 * 2 + 0), PatternRow(dither[pix], y % 4 * 2 + 1);
    code1 := 3 - (if pattern1[x] == '1' then index2[pix] else index1[pix]) % 4;
    code2 := 3 - (if pattern2[x] == '1' then index2[pix] else index1[pix]) % 4;
  }

  /** One row of a character, and the two sums after it. */
  method RenderRow(luma: seq<int>, five: bool, index1: array<int>, index2: array<int>, dither: array<int>,
                   cb: array<int>, at: nat, ghost block: seq<int>, y: nat, high: int, low: int)
    returns (row1: int, row2: int, highdiff: int, lowdiff: int)
    requires Ready(luma, five) && Tables(luma, index1[..], index2[..], dither[..]) && IsBlock(block) && y < 8
    requires at + 32 <= cb.Length && cb[at..at + 32] == block
    requires high == Above(luma, block, y * 4) && low == Below(luma, block, y * 4)
    ensures row1 == Bits(luma, block, y, 0, 4) && row2 == Bits(luma, block, y, 1, 4)
    ensures highdiff == Above(luma, block, y * 4 + 4) && lowdiff == Below(luma, block, y * 4 + 4)
  {
    hide Tables, Level, Code, Pick, Above, Below, Rise, Fall;
    row1, row2, highdiff, lowdiff := 0, 0, high, low;
    var x := 0;
    while x < 4
      invariant 0 <= x <= 4
      invariant row1 == Bits(luma, block, y, 0, x) && row2 == Bits(luma, block, y, 1, x)
      invariant highdiff == Above(luma, block, y * 4 + x) && lowdiff == Below(luma, block, y * 4 + x)
    {
      var pix := cb[at + y * 4 + x];
      assert pix == cb[at..at + 32][y * 4 + x] == Pixel(block, y, x);
      var code1, code2, rise, fall := RenderPixel(luma, five, index1, index2, dither, pix, y, x);
      SumsStep(luma, block, y, x);
      highdiff := highdiff + rise;
      lowdiff := lowdiff + fall;
      row1 := row1 * 4 + code1;
      row2 := row2 * 4 + code2;
      x := x + 1;
    }
  }

  ghost predicate Tables(luma: seq<int>, index1: seq<int>, index2: seq<int>, dither: seq<int>)
    requires luma != [] && luma[0] == 0
  {
    && |index1| == |index2| == |dither| == 256
    && forall a :: 0 <= a < 256 ==>
      index1[a] == Level(luma, a) && index2[a] == Next(luma, a) && dither[a] == Ramp(luma, a)
  }

  lemma TablesAt(luma: seq<int>, index1: seq<int>, index2: seq<int>, dither: seq<int>, a: int)
    requires luma != [] && luma[0] == 0 && Tables(luma, index1, index2, dither) && 0 <= a < 256
    ensures index1[a] == Level(luma, a) && index2[a] == Next(luma, a) && dither[a] == Ramp(luma, a)
  {
  }

  /** One character drawn into its rows of the charset. */
  method RenderChar(luma: seq<int>, five: bool, index1: array<int>, index2: array<int>, dither: array<int>,
                    cb: array<int>, at: nat, charset: array<int>, to: nat, ghost block: seq<int>)
    returns (highdiff: int, lowdiff: int)
    requires Ready(luma, five) && Tables(luma, index1[..], index2[..], dither[..]) && IsBlock(block)
    requires at + 32 <= cb.Length && cb[at..at + 32] == block && charset.Length == 0x1000 && to + 8 <= 0x800
    requires charset != cb && charset != index1 && charset != index2 && charset != dither
    modifies charset
    ensures highdiff == Above(luma, block, 32) && lowdiff == Below(luma, block, 32)
    ensures Rows(luma, block, charset[..], to, 8)
    ensures forall k :: 0 <= k < 0x1000 && !(to <= k < to + 8) && !(0x800 + to <= k < 0x800 + to + 8) ==>
              charset[k] == old(charset[k])
  {
    hide Tables, Bits, Above, Below;
    highdiff, lowdiff := NoSums(luma, block);
    var y := 0;
    while y < 8
      invariant 0 <= y <= 8 && Tables(luma, index1[..], index2[..], dither[..]) && cb[at..at + 32] == block
      invariant highdiff == Above(luma, block, y * 4) && lowdiff == Below(luma, block, y * 4)
      invariant Rows(luma, block, charset[..], to, y)
      invariant forall k :: 0 <= k < 0x1000 && !(to <= k < to + 8) && !(0x800 + to <= k < 0x800 + to + 8) ==>
                  charset[k] == old(charset[k])
    {
      ghost var before := charset[..];
      var row1, row2;
      row1, row2, highdiff, lowdiff :=
        RenderRow(luma, five, index1, index2, dither, cb, at, block, y, highdiff, lowdiff);
      charset[to + y] := row1;
      charset[0x800 + to + y] := row2;
      forall k | to <= k < to + y + 1 ensures RowAt(luma, block, charset[..], to, k) {
        if k < to + y { assert RowAt(luma, block, before, to, k); }
      }
      y := y + 1;
    }
  }

  method NoSums(luma: seq<int>, ghost block: seq<int>) returns (high: int, low: int)
    requires |luma| >= 4 && luma[0] == 0 && IsBlock(block)
    ensures high == Above(luma, block, 0) == 0 && low == Below(luma, block, 0) == 0
  {
    high, low := 0, 0;
  }

  /** The first `n` rows of a character are in both halves of the charset, from `to` on. */
  ghost predicate Rows(luma: seq<int>, block: seq<int>, charset: seq<int>, to: nat, n: nat)
    requires luma != [] && luma[0] == 0 && IsBlock(block) && n <= 8 && to + 8 <= 0x800 && |charset| == 0x1000
  {
    forall k :: to <= k < to + n ==> RowAt(luma, block, charset, to, k)
  }

  ghost predicate RowAt(luma: seq<int>, block: seq<int>, charset: seq<int>, to: nat, k: nat)
    requires luma != [] && luma[0] == 0 && IsBlock(block) && to <= k < to + 8 <= 0x800 && |charset| == 0x1000
  {
    charset[k] == Bits(luma, block, k - to, 0, 4) && charset[0x800 + k] == Bits(luma, block, k - to, 1, 4)
  }

  /** The adjustment of one character of the code book in place. */
  method Adjust(luma: seq<int>, five: bool, cb: array<int>, at: nat, highdiff: int, lowdiff: int, ghost block: seq<int>)
    requires Ready(luma, five) && IsBlock(block) && at + 32 <= cb.Length && cb[at..at + 32] == block
    requires Clashes(luma, five, block) && highdiff == Above(luma, block, 32) && lowdiff == Below(luma, block, 32)
    modifies cb
    ensures cb[at..at + 32] == Adjusted(luma, five, block)
    ensures forall k :: 0 <= k < cb.Length && !(at <= k < at + 32) ==> cb[k] == old(cb[k])
  {
    var x := 0;
    while x < 32
      invariant 0 <= x <= 32
      invariant forall k :: 0 <= k < cb.Length && !(at <= k < at + x) ==> cb[k] == old(cb[k])
      invariant forall k :: 0 <= k < x ==> cb[at + k] == Adjusted(luma, five, block)[k]
    {
      assert cb[at + x] == old(cb[at..at + 32])[x] == block[x];
      cb[at + x] := if lowdiff > highdiff then Min(luma[3], cb[at + x]) else Max(luma[1], cb[at + x]);
      x := x + 1;
    }
  }

  /**
   * Character `c` is finished: adjusted in the code book, drawn from what it was adjusted to, its colour bit set from
   * it.
   */
  ghost predicate Finished(luma: seq<int>, five: bool, book: seq<int>, cb: seq<int>, charset: seq<int>,
                           colram: seq<int>, c: nat)
    requires Ready(luma, five) && Book(book) && |cb| == |book| && |charset| == 0x1000 && |colram| == CHARSET_CHARS
    requires c < CHARSET_CHARS
  {
    assert IsBlock(Block(book, c));
    var b := Adjusted(luma, five, Block(book, c));
    Block(cb, c) == b && Rows(luma, b, charset, c * 8, 8) && colram[c] == One(Bright(luma, b))
  }

  /**
   * What the display makes of a finished character: the two bits of a pixel in either field, taken from its charset
   * byte, with the colour RAM bit, are the colour index picked for the adjusted pixel at that place.
   */
  lemma FinishedShows(luma: seq<int>, five: bool, book: seq<int>, cb: seq<int>, charset: seq<int>, colram: seq<int>,
                      c: nat, y: nat, field: nat, x: nat)
    requires Ready(luma, five) && Book(book) && |cb| == |book| && |charset| == 0x1000 && |colram| == CHARSET_CHARS
    requires c < CHARSET_CHARS && y < 8 && field < 2 && x < 4
    requires Finished(luma, five, book, cb, charset, colram, c)
    ensures IsBlock(Block(book, c))
    ensures var b, byte := Adjusted(luma, five, Block(book, c)), charset[0x800 * field + c * 8 + y];
            byte >= 0 && Shown(byte / Pow4(3 - x) % 4, colram[c] == 1, five) == Pick(luma, Pixel(b, y, x), y, field, x)
  {
    hide Adjusted, Shown, Pick, Code, Bright, Bits, Pow4;
    FinishedByte(luma, five, book, cb, charset, colram, c, y, field);
    var b := Adjusted(luma, five, Block(book, c));
    ShowsWhatWasPicked(luma, five, Block(book, c), y, field, x);
    BitsReadBack(luma, b, y, field, 4, x);
  }

  lemma FinishedByte(luma: seq<int>, five: bool, book: seq<int>, cb: seq<int>, charset: seq<int>, colram: seq<int>,
                     c: nat, y: nat, field: nat)
    requires Ready(luma, five) && Book(book) && |cb| == |book| && |charset| == 0x1000 && |colram| == CHARSET_CHARS
    requires c < CHARSET_CHARS && y < 8 && field < 2 && Finished(luma, five, book, cb, charset, colram, c)
    ensures IsBlock(Block(book, c))
    ensures var b := Adjusted(luma, five, Block(book, c));
            charset[0x800 * field + c * 8 + y] == Bits(luma, b, y, field, 4) && colram[c] == One(Bright(luma, b))
  {
    assert IsBlock(Block(book, c));
    hide Adjusted, Bits, Bright, One, IsBlock, Book, Block, Ready;
    assert RowAt(luma, Adjusted(luma, five, Block(book, c)), charset, c * 8, c * 8 + y);
  }

  /**
   * The characters before `n` are finished, those after it untouched, and `n` itself is as it was or already adjusted.
   */
  ghost predicate Progress(luma: seq<int>, five: bool, book: seq<int>, cb: seq<int>, charset: seq<int>,
                           colram: seq<int>, n: nat)
    requires Ready(luma, five) && Book(book)
  {
    && |cb| == |book| && |charset| == 0x1000 && |colram| == CHARSET_CHARS && n <= CHARSET_CHARS
    && (forall c :: 0 <= c < n ==> Finished(luma, five, book, cb, charset, colram, c))
    && (forall k :: n * 32 + 32 <= k < |book| ==> cb[k] == book[k])
    && (n < CHARSET_CHARS ==> IsBlock(Block(book, n)) && IsBlock(Block(cb, n))
                              && Adjusted(luma, five, Block(cb, n)) == Adjusted(luma, five, Block(book, n)))
  }

  /** Only the rows of character `n` differ. */
  ghost predicate OnlyRows(charset: seq<int>, other: seq<int>, n: nat) {
    && |charset| == |other| == 0x1000
    && forall k :: 0 <= k < 0x1000 && !(n * 8 <= k < n * 8 + 8) && !(0x800 + n * 8 <= k < 0x800 + n * 8 + 8) ==>
      other[k] == charset[k]
  }

  /** A finished character stays finished while a later one is drawn and adjusted. */
  lemma FinishedStays(luma: seq<int>, five: bool, book: seq<int>, cb: seq<int>, charset: seq<int>, colram: seq<int>,
                      cb2: seq<int>, charset2: seq<int>, colram2: seq<int>, n: nat, c: nat)
    requires Ready(luma, five) && Book(book) && |cb| == |cb2| == |book| && |colram| == |colram2| == CHARSET_CHARS
    requires c < n < CHARSET_CHARS && OnlyRows(charset, charset2, n)
    requires Finished(luma, five, book, cb, charset, colram, c)
    requires (forall k :: 0 <= k < n * 32 ==> cb2[k] == cb[k]) && (forall k :: 0 <= k < n ==> colram2[k] == colram[k])
    ensures Finished(luma, five, book, cb2, charset2, colram2, c)
  {
    assert IsBlock(Block(book, c));
    var b := Adjusted(luma, five, Block(book, c));
    hide Adjusted, Bits, Bright;
    assert Block(cb2, c) == Block(cb, c);
    forall k | c * 8 <= k < c * 8 + 8 ensures RowAt(luma, b, charset2, c * 8, k) {
      assert RowAt(luma, b, charset, c * 8, k);
    }
  }

  /** A character drawn without a clash is finished. */
  lemma DrawnIsFinished(luma: seq<int>, five: bool, book: seq<int>, cb: seq<int>, charset: seq<int>, colram: seq<int>,
                        charset2: seq<int>, colram2: seq<int>, n: nat)
    requires Ready(luma, five) && Book(book) && n < CHARSET_CHARS && Progress(luma, five, book, cb, charset, colram, n)
    requires !Clashes(luma, five, Block(cb, n)) && OnlyRows(charset, charset2, n)
    requires Rows(luma, Block(cb, n), charset2, n * 8, 8)
    requires colram2 == colram[n := One(Bright(luma, Block(cb, n)))]
    ensures Progress(luma, five, book, cb, charset2, colram2, n + 1)
  {
    assert Finished(luma, five, book, cb, charset2, colram2, n);
    if n + 1 < CHARSET_CHARS {
      assert IsBlock(Block(book, n + 1));
      assert Block(cb, n + 1) == Block(book, n + 1);
    }
    hide Finished, Adjusted, Clashes, IsBlock, Rows, Bright;
    forall c | 0 <= c < n + 1 ensures Finished(luma, five, book, cb, charset2, colram2, c) {
      if c < n { FinishedStays(luma, five, book, cb, charset, colram, cb, charset2, colram2, n, c); }
    }
  }

  /** A character that clashed is drawn again from its adjustment, which does not clash. */
  lemma RedoneProgress(luma: seq<int>, five: bool, book: seq<int>, cb: seq<int>, charset: seq<int>, colram: seq<int>,
                       cb2: seq<int>, charset2: seq<int>, n: nat)
    requires Ready(luma, five) && Book(book) && n < CHARSET_CHARS && Progress(luma, five, book, cb, charset, colram, n)
    requires OnlyRows(charset, charset2, n) && |cb2| == |cb| && Block(cb2, n) == Adjusted(luma, five, Block(cb, n))
    requires forall k :: 0 <= k < |cb| && !(n * 32 <= k < n * 32 + 32) ==> cb2[k] == cb[k]
    ensures Progress(luma, five, book, cb2, charset2, colram, n)
    ensures IsBlock(Block(cb2, n)) && !Clashes(luma, five, Block(cb2, n))
  {
    OneRedo(luma, five, Block(cb, n));
    hide Finished, Adjusted, Clashes, Rows, Bright;
    forall c | 0 <= c < n ensures Finished(luma, five, book, cb2, charset2, colram, c) {
      FinishedStays(luma, five, book, cb, charset, colram, cb2, charset2, colram, n, c);
    }
  }

  /** One round of the loop: the character at charpos is drawn, and adjusted if it has to be drawn again. */
  method Round(luma: seq<int>, five: bool, index1: array<int>, index2: array<int>, dither: array<int>,
               cb: array<int>, charset: array<int>, colram: array<int>, charpos: nat, ghost book: seq<int>)
    returns (redo: bool)
    requires Ready(luma, five) && Tables(luma, index1[..], index2[..], dither[..]) && Book(book)
    requires charpos < CHARSET_CHARS
    requires Progress(luma, five, book, cb[..], charset[..], colram[..], charpos)
    requires {cb, charset, colram} !! {index1, index2, dither} && cb != charset && cb != colram && charset != colram
    modifies cb, charset, colram
    ensures Progress(luma, five, book, cb[..], charset[..], colram[..], if redo then charpos else charpos + 1)
    ensures redo <==> Clashes(luma, five, old(Block(cb[..], charpos)))
    ensures redo ==> IsBlock(Block(cb[..], charpos)) && !Clashes(luma, five, Block(cb[..], charpos))
    ensures !redo ==> cb[..] == old(cb[..])
  {
    hide Finished, Adjusted, IsBlock, Rows, Tables, Bits, Above, Below;
    ghost var cb0, charset0, colram0 := cb[..], charset[..], colram[..];
    ghost var block := Block(cb0, charpos);
    var highdiff, lowdiff :=
      RenderChar(luma, five, index1, index2, dither, cb, charpos * 32, charset, charpos * 8, block);
    redo := highdiff > 0 && lowdiff > 0 && five;
    if redo {
      Adjust(luma, five, cb, charpos * 32, highdiff, lowdiff, block);
      RedoneProgress(luma, five, book, cb0, charset0, colram0, cb[..], charset[..], charpos);
    } else {
      colram[charpos] := One(highdiff > 0);
      DrawnIsFinished(luma, five, book, cb0, charset0, colram0, charset[..], colram[..], charpos);
    }
  }

  method MakeTables(luma: seq<int>, five: bool) returns (index1: array<int>, index2: array<int>, dither: array<int>)
    requires Ready(luma, five)
    ensures fresh(index1) && fresh(index2) && fresh(dither) && Tables(luma, index1[..], index2[..], dither[..])
  {
    index1, index2, dither := BuildTables(luma, five);
  }

  lemma BookSize(book: seq<int>)
    requires Book(book)
    ensures |book| == CHARSET_CHARS * 32
  {
  }

  lemma ProgressStart(luma: seq<int>, five: bool, book: seq<int>, charset: seq<int>, colram: seq<int>)
    requires Ready(luma, five) && Book(book) && |charset| == 0x1000 && |colram| == CHARSET_CHARS
    ensures Progress(luma, five, book, book, charset, colram, 0)
  {
    assert IsBlock(Block(book, 0));
  }

  lemma ProgressEnd(luma: seq<int>, five: bool, book: seq<int>, cb: seq<int>, charset: seq<int>, colram: seq<int>)
    requires Ready(luma, five) && Book(book) && Progress(luma, five, book, cb, charset, colram, CHARSET_CHARS)
    ensures |cb| == |book| && |charset| == 0x1000 && |colram| == CHARSET_CHARS
    ensures forall c :: 0 <= c < CHARSET_CHARS ==> Finished(luma, five, book, cb, charset, colram, c)
  {
  }

  ghost predicate ClashAt(luma: seq<int>, five: bool, book: seq<int>, c: nat)
    requires Ready(luma, five) && Book(book) && c < CHARSET_CHARS
  {
    assert IsBlock(Block(book, c));
    Clashes(luma, five, Block(book, c))
  }

  /** How many of the first `n` characters of a code book clash. */
  ghost function ClashCount(luma: seq<int>, five: bool, book: seq<int>, n: nat): (k: nat)
    requires Ready(luma, five) && Book(book) && n <= CHARSET_CHARS
    ensures k <= n
  {
    if n == 0 then 0 else ClashCount(luma, five, book, n - 1) + One(ClashAt(luma, five, book, n - 1))
  }

  lemma NextUntouched(luma: seq<int>, five: bool, book: seq<int>, cb: seq<int>, charset: seq<int>, colram: seq<int>,
                      n: nat)
    requires Ready(luma, five) && Book(book) && Progress(luma, five, book, cb, charset, colram, n)
    requires n + 1 < CHARSET_CHARS
    ensures |cb| == |book| && Block(cb, n + 1) == Block(book, n + 1)
  {
  }

  /**
   * The loop over the characters. Stepping charpos back makes it draw again exactly the characters that clash, once
   * each: `rounds` counts the characters drawn.
   */
  method RenderCharset(luma: seq<int>, five: bool, cb: array<int>, charset: array<int>, colram: array<int>)
      returns (ghost rounds: nat)
    requires Ready(luma, five) && Book(cb[..]) && charset.Length == 0x1000 && colram.Length == CHARSET_CHARS
    requires cb != charset && cb != colram && charset != colram
    modifies cb, charset, colram
    ensures forall c :: 0 <= c < CHARSET_CHARS ==> Finished(luma, five, old(cb[..]), cb[..], charset[..], colram[..], c)
    ensures rounds == CHARSET_CHARS + ClashCount(luma, five, old(cb[..]), CHARSET_CHARS)
  {
    hide Progress, Tables, Finished, Clashes, IsBlock, Book;
    ghost var book := cb[..];
    var index1, index2, dither := MakeTables(luma, five);
    BookSize(book);
    ProgressStart(luma, five, book, charset[..], colram[..]);
    var charpos := 0;
    ghost var drawn := false;
    rounds := 0;
    while charpos < CHARSET_CHARS
      invariant charpos <= CHARSET_CHARS && Tables(luma, index1[..], index2[..], dither[..])
      invariant Progress(luma, five, book, cb[..], charset[..], colram[..], charpos)
      invariant drawn ==> charpos < CHARSET_CHARS && IsBlock(Block(cb[..], charpos))
      invariant drawn ==> !Clashes(luma, five, Block(cb[..], charpos))
      invariant drawn ==> ClashAt(luma, five, book, charpos)
      invariant !drawn && charpos < CHARSET_CHARS ==> Block(cb[..], charpos) == Block(book, charpos)
      invariant rounds == charpos + ClashCount(luma, five, book, charpos) + One(drawn)
      decreases CHARSET_CHARS - charpos, !drawn
    {
      if charpos + 1 < CHARSET_CHARS { NextUntouched(luma, five, book, cb[..], charset[..], colram[..], charpos); }
      var redo := Round(luma, five, index1, index2, dither, cb, charset, colram, charpos, book);
      if redo { charpos := charpos - 1; }
      charpos := charpos + 1;
      drawn := redo;
      rounds := rounds + 1;
    }
    ProgressEnd(luma, five, book, cb[..], charset[..], colram[..]);
  }
}
