/** The pixel buffers of the two LED strip drivers: colour bytes for RMT, their three-bits-per-bit waveform for SPI. */
module LedStrip {
  import opened Bytes

  /** One colour byte, or one byte sent by SPI. */
  type octet = bv8

  /** Where the components sit in a pixel, how many bytes each has, and how many there are. */
  datatype Format = Format(rPos: nat, gPos: nat, bPos: nat, wPos: nat, bytesPerColor: nat, components: nat)

  const GRB := Format(1, 0, 2, 3, 1, 3)

  datatype Colors = Colors(red: bv32, green: bv32, blue: bv32, white: bv32)

  /** BIT(p) for a two-bit position field. */
  function Bit(p: nat): octet {
    if p == 0 then 1 else if p == 1 then 2 else if p == 2 then 4 else 8
  }

  /** The component-order check of both drivers. */
  predicate OrderAccepted(f: Format) {
    if f.components == 3 then Bit(f.rPos) | Bit(f.gPos) | Bit(f.bPos) == 0x07
    else f.components == 4 && Bit(f.rPos) | Bit(f.gPos) | Bit(f.bPos) | Bit(f.wPos) == 0x0F
  }

  /** Every component has a place of its own and none is left free. */
  predicate Ordered(f: Format) {
    && (f.components == 3 || f.components == 4)
    && f.rPos < f.components && f.gPos < f.components && f.bPos < f.components
    && f.rPos != f.gPos && f.rPos != f.bPos && f.gPos != f.bPos
    && (f.components == 4 ==> f.wPos < 4 && f.wPos != f.rPos && f.wPos != f.gPos && f.wPos != f.bPos)
  }

  /** The bit mask accepts exactly the permutations. */
  lemma MaskAcceptsPermutations(f: Format)
    requires f.rPos < 4 && f.gPos < 4 && f.bPos < 4 && f.wPos < 4
    ensures OrderAccepted(f) <==> Ordered(f)
  {
  }

  /** The format a new strip gets: GRB by default, two bytes a component for WS2816, one when none are given. */
  function Settled(f: Format, unspecified: bool, ws2816: bool): (r: Format)
    ensures r.bytesPerColor > 0
  {
    var g := if unspecified then GRB else f;
    var h := if ws2816 then g.(bytesPerColor := 2) else g;
    if h.bytesPerColor == 0 then h.(bytesPerColor := 1) else h
  }

  predicate Legal(f: Format) {
    Ordered(f) && f.bytesPerColor > 0
  }

  function BytesPerPixel(f: Format): nat {
    f.components * f.bytesPerColor
  }

  /** Byte k of a colour value, the least significant one being byte 0. */
  function ColorByte(color: bv32, k: nat): octet {
    var shifted := if k == 0 then color else if k == 1 then color >> 8 else if k == 2 then color >> 16 else if k == 3 then color >> 24 else 0;
    (shifted & 0xFF) as octet
  }

  /** Offset of the component at this position. */
  function Off(f: Format, p: nat): nat {
    if p == 0 then 0 else if p == 1 then f.bytesPerColor else if p == 2 then 2 * f.bytesPerColor else 3 * f.bytesPerColor
  }

  /** The colour whose component is at this position. */
  function ColorAt(f: Format, c: Colors, p: nat): bv32 {
    if p == f.rPos then c.red else if p == f.gPos then c.green else if p == f.bPos then c.blue else c.white
  }

  function Position(f: Format, x: nat): nat {
    if x < f.bytesPerColor then 0 else if x < 2 * f.bytesPerColor then 1 else if x < 3 * f.bytesPerColor then 2 else 3
  }

  /** Byte x of a pixel: most significant byte of each component first. */
  function PixelByte(f: Format, c: Colors, x: nat): octet {
    var p := Position(f, x);
    var i := x - Off(f, p);
    ColorByte(ColorAt(f, c, p), if i < f.bytesPerColor then f.bytesPerColor - 1 - i else 0)
  }

  function PixelBytes(f: Format, c: Colors): (s: seq<octet>)
    ensures |s| == BytesPerPixel(f)
  {
    seq(BytesPerPixel(f), x requires x >= 0 => PixelByte(f, c, x))
  }

  /** A byte string as a big-endian number, of its last four bytes. */
  function BigEndian(s: seq<octet>): bv32 {
    if s == [] then 0 else (BigEndian(s[..|s| - 1]) << 8) | s[|s| - 1] as bv32
  }

  /** These bytes are the number modulo 256 to their number, most significant byte first. */
  predicate Holds(s: seq<octet>, color: bv32) {
    match |s|
    case 0 => true
    case 1 => BigEndian(s) == color % 0x100
    case 2 => BigEndian(s) == color % 0x1_0000
    case 3 => BigEndian(s) == color % 0x100_0000
    case n => BigEndian(s) == color && forall i {:trigger s[i]} :: 0 <= i < n - 4 ==> s[i] == 0
  }

  /** A pixel in which every component holds its colour. */
  predicate PixelShows(f: Format, p: seq<octet>, red: bv32, green: bv32, blue: bv32, white: bv32) {
    var n := f.bytesPerColor;
    && |p| == f.components * n && f.rPos * n + n <= |p| && f.gPos * n + n <= |p| && f.bPos * n + n <= |p|
    && Holds(p[f.rPos * n..f.rPos * n + n], red)
    && Holds(p[f.gPos * n..f.gPos * n + n], green)
    && Holds(p[f.bPos * n..f.bPos * n + n], blue)
    && (f.components == 4 ==> f.wPos * n + n <= |p| && Holds(p[f.wPos * n..f.wPos * n + n], white))
  }

  lemma BytesHold(s: seq<octet>, color: bv32)
    requires forall i {:trigger s[i]} :: 0 <= i < |s| ==> s[i] == ColorByte(color, |s| - 1 - i)
    ensures Holds(s, color)
  {
    hide ColorByte;
    var n := |s|;
    if n >= 1 {
      LastByte(s, 0);
      FromBytes(color, if n >= 4 then BigEndian(s[..n - 4]) else 0);
      if n >= 2 {
        LastByte(s, 1);
        if n >= 3 {
          LastByte(s, 2);
          if n >= 4 {
            LastByte(s, 3);
            forall i {:trigger s[i]} | 0 <= i < n - 4
              ensures s[i] == 0
            {
              ZeroByte(color, n - 1 - i);
            }
          }
        }
      }
    }
  }

  lemma ZeroByte(color: bv32, k: nat)
    requires k >= 4
    ensures ColorByte(color, k) == 0
  {
  }

  lemma LastByte(s: seq<octet>, k: nat)
    requires k < |s|
    ensures BigEndian(s[..|s| - k]) == (BigEndian(s[..|s| - k - 1]) << 8) | s[|s| - k - 1] as bv32
    ensures s[..|s| - 0] == s
  {
    assert s[..|s| - k][..|s| - k - 1] == s[..|s| - k - 1];
  }

  /** The lowest bytes make up the number modulo 256 to their number, whatever stands in front of four of them. */
  lemma FromBytes(color: bv32, front: bv32)
    ensures var b0, b1, b2, b3 := ColorByte(color, 0) as bv32, ColorByte(color, 1) as bv32, ColorByte(color, 2) as bv32, ColorByte(color, 3) as bv32;
            && (0 << 8) | b0 == color % 0x100
            && (((0 << 8) | b1) << 8) | b0 == color % 0x1_0000
            && (((((0 << 8) | b2) << 8) | b1) << 8) | b0 == color % 0x100_0000
            && (((((((front << 8) | b3) << 8) | b2) << 8) | b1) << 8) | b0 == color
  {
  }

  lemma ComponentPlace(f: Format, p: nat, i: nat)
    requires Legal(f) && p < f.components && i < f.bytesPerColor
    ensures p * f.bytesPerColor == Off(f, p) && p * f.bytesPerColor + f.bytesPerColor <= BytesPerPixel(f)
    ensures Position(f, p * f.bytesPerColor + i) == p
  {
    assert p == 0 || p == 1 || p == 2 || p == 3;
    assert f.components == 3 || f.components == 4;
  }

  /** Where the bytes of a component are, and what they are. */
  lemma ComponentHolds(f: Format, c: Colors, p: nat)
    requires Legal(f) && p < f.components
    ensures p * f.bytesPerColor + f.bytesPerColor <= BytesPerPixel(f)
    ensures Holds(PixelBytes(f, c)[p * f.bytesPerColor..p * f.bytesPerColor + f.bytesPerColor], ColorAt(f, c, p))
  {
    hide BytesPerPixel, ColorByte, ColorAt, Holds, Ordered, Off, Position;
    var n, at := f.bytesPerColor, p * f.bytesPerColor;
    ComponentPlace(f, p, 0);
    var s := PixelBytes(f, c)[at..at + n];
    forall i {:trigger s[i]} | 0 <= i < n
      ensures s[i] == ColorByte(ColorAt(f, c, p), n - 1 - i)
    {
      ComponentPlace(f, p, i);
    }
    BytesHold(s, ColorAt(f, c, p));
  }

  /** The bytes of a pixel hold its colours. */
  lemma PixelBytesShow(f: Format, c: Colors)
    requires Legal(f)
    ensures PixelShows(f, PixelBytes(f, c), c.red, c.green, c.blue, c.white)
  {
    hide PixelBytes, Holds;
    ComponentHolds(f, c, f.rPos);
    ComponentHolds(f, c, f.gPos);
    ComponentHolds(f, c, f.bPos);
    if f.components == 4 {
      ComponentHolds(f, c, f.wPos);
    }
  }

  /** Eight bits, most significant first. */
  function Bits(b: octet): seq<bool> {
    [b & 0x80 != 0, b & 0x40 != 0, b & 0x20 != 0, b & 0x10 != 0, b & 8 != 0, b & 4 != 0, b & 2 != 0, b & 1 != 0]
  }

  /** The bits are those of the binary numeral. */
  lemma BitsMakeByte(b: octet)
    ensures var s := Bits(b);
            b == (if s[0] then 128 else 0) + (if s[1] then 64 else 0) + (if s[2] then 32 else 0) + (if s[3] then 16 else 0)
                 + (if s[4] then 8 else 0) + (if s[5] then 4 else 0) + (if s[6] then 2 else 0) + (if s[7] then 1 else 0)
  {
  }

  datatype Triple = Triple(t0: octet, t1: octet, t2: octet)

  const DARK := Triple(0, 0, 0)

  function Or(a: Triple, b: Triple): Triple {
    Triple(a.t0 | b.t0, a.t1 | b.t1, a.t2 | b.t2)
  }

  /** The three SPI bytes of one colour byte. */
  function Expand(data: octet): Triple {
    Triple(
      (if data & 0x20 != 0 then 0x02 | 0x01 else 0x02) | (if data & 0x40 != 0 then 0x10 | 0x08 else 0x10) | (if data & 0x80 != 0 then 0x80 | 0x40 else 0x80),
      0x01 | (if data & 0x08 != 0 then 0x08 | 0x04 else 0x08) | (if data & 0x10 != 0 then 0x40 | 0x20 else 0x40),
      (if data & 0x01 != 0 then 0x04 | 0x02 else 0x04) | (if data & 0x02 != 0 then 0x20 | 0x10 else 0x20) | (if data & 0x04 != 0 then 0x80 else 0))
  }

  lemma ExpandBits(data: octet)
    ensures var b, e := Bits(data), Expand(data);
            && Bits(e.t0) == [true, b[0], false, true, b[1], false, true, b[2]]
            && Bits(e.t1) == [false, true, b[3], false, true, b[4], false, true]
            && Bits(e.t2) == [b[5], false, true, b[6], false, true, b[7], false]
  {
  }

  /** Bit j of a byte goes out as one, the bit itself, zero: the waveform 110 or 100, most significant bit first. */
  lemma ExpandIsWaveform(data: octet, j: nat)
    requires j < 8
    ensures var e := Expand(data);
            var sent := Bits(e.t0) + Bits(e.t1) + Bits(e.t2);
            sent[3 * j] && sent[3 * j + 1] == Bits(data)[j] && !sent[3 * j + 2]
  {
    ExpandBits(data);
    hide Expand, Bits;
    if j < 3 {
    } else if j < 5 {
    } else {
    }
  }

  /** No two colour bytes have the same waveform. */
  lemma ExpandInjective(a: octet, b: octet)
    requires Expand(a) == Expand(b)
    ensures a == b
  {
  }

  /** The SPI bytes of a run of colour bytes. */
  function Expanded(s: seq<octet>): (r: seq<octet>)
    ensures |r| == 3 * |s|
  {
    if s == [] then [] else [Expand(s[0]).t0, Expand(s[0]).t1, Expand(s[0]).t2] + Expanded(s[1..])
  }

  /** Three SPI bytes. */
  function At(s: seq<octet>, x: nat): Triple
    requires 3 * x + 3 <= |s|
  {
    Triple(s[3 * x], s[3 * x + 1], s[3 * x + 2])
  }

  lemma {:induction false} ExpandedAt(s: seq<octet>, x: nat)
    requires x < |s|
    ensures At(Expanded(s), x) == Expand(s[x])
    decreases |s|
  {
    hide Expand;
    if x > 0 {
      ExpandedAt(s[1..], x - 1);
    }
  }

  lemma {:induction false} ExpandedConcat(a: seq<octet>, b: seq<octet>)
    ensures Expanded(a + b) == Expanded(a) + Expanded(b)
    decreases |a|
  {
    hide Expand;
    if a == [] {
      assert a + b == b;
    } else {
      assert (a + b)[1..] == a[1..] + b;
      ExpandedConcat(a[1..], b);
    }
  }

  /** Byte strings with the same triples are the same. */
  lemma SameTriples(s: seq<octet>, t: seq<octet>, n: nat)
    requires |s| == |t| == 3 * n
    requires forall x {:trigger At(s, x)} :: 0 <= x < n ==> At(s, x) == At(t, x)
    ensures s == t
  {
    forall i | 0 <= i < |s|
      ensures s[i] == t[i]
    {
      assert At(s, i / 3) == At(t, i / 3);
    }
  }

  lemma SpliceExpanded(s: seq<octet>, at: nat, p: seq<octet>)
    requires at + |p| <= |s|
    ensures Expanded(Splice(s, at, p)) == Splice(Expanded(s), 3 * at, Expanded(p))
  {
    hide Expanded;
    var head, middle, tail := s[..at], s[at..at + |p|], s[at + |p|..];
    ExpandedConcat(head + p, tail);
    ExpandedConcat(head, p);
    ExpandedConcat(head + middle, tail);
    ExpandedConcat(head, middle);
    assert s == head + middle + tail;
    SpliceMiddle(Expanded(head), Expanded(middle), Expanded(tail), Expanded(p));
  }

  lemma SpliceMiddle(head: seq<octet>, middle: seq<octet>, tail: seq<octet>, p: seq<octet>)
    requires |p| == |middle|
    ensures Splice(head + middle + tail, |head|, p) == head + p + tail
  {
  }

  lemma SpliceApart(s: seq<octet>, at: nat, p: seq<octet>, from: nat, to: nat)
    requires at + |p| <= |s| && from <= to <= |s|
    ensures to <= at || at + |p| <= from ==> Splice(s, at, p)[from..to] == s[from..to]
    ensures from == at && to == at + |p| ==> Splice(s, at, p)[from..to] == p
  {
  }

  /** Where a pixel starts in the RMT buffer; a strip of n pixels ends where pixel n would start. */
  function Start(f: Format, index: nat): nat {
    index * BytesPerPixel(f)
  }

  lemma {:induction false} Multiples(i: nat, j: nat, size: nat)
    requires i < j
    ensures i * size + size <= j * size
    decreases j
  {
    assert j * size == (j - 1) * size + size;
    if i < j - 1 {
      Multiples(i, j - 1, size);
    }
  }

  /** A pixel lies in front of all later ones. */
  lemma PixelFits(f: Format, index: nat, later: nat)
    requires index < later
    ensures Start(f, index) + BytesPerPixel(f) <= Start(f, later)
  {
    hide BytesPerPixel;
    Multiples(index, later, BytesPerPixel(f));
  }

  datatype Op =
    | SetPixel(index: nat, red: bv32, green: bv32, blue: bv32)
    | SetPixelRgbw(index: nat, red: bv32, green: bv32, blue: bv32, white: bv32)
    | Clear

  /** Neither driver does anything about a pixel past the end, nor about white on a strip without it. */
  predicate Effective(f: Format, length: nat, op: Op) {
    match op
    case SetPixel(index, _, _, _) => index < length
    case SetPixelRgbw(index, _, _, _, _) => index < length && f.components == 4
    case Clear => true
  }

  function ColorsOf(op: Op): Colors {
    match op
    case SetPixel(_, r, g, b) => Colors(r, g, b, 0)
    case SetPixelRgbw(_, r, g, b, w) => Colors(r, g, b, w)
    case Clear => Colors(0, 0, 0, 0)
  }

  function Zeros(n: nat): (s: seq<octet>)
    ensures |s| == n
  {
    seq(n, x => 0)
  }

  /** The RMT buffer after one operation. */
  function RmtAfter(s: seq<octet>, f: Format, length: nat, op: Op): (r: seq<octet>)
    requires |s| == Start(f, length)
    ensures |r| == |s|
  {
    if !Effective(f, length, op) then s
    else if op.Clear? then Zeros(|s|)
    else
      PixelFits(f, op.index, length);
      Splice(s, Start(f, op.index), PixelBytes(f, ColorsOf(op)))
  }

  /** The SPI buffer after one operation. */
  function SpiAfter(s: seq<octet>, f: Format, length: nat, op: Op): (r: seq<octet>)
    requires |s| == 3 * (Start(f, length))
    ensures |r| == |s|
  {
    if !Effective(f, length, op) then s
    else if op.Clear? then Expanded(Zeros(Start(f, length)))
    else
      PixelFits(f, op.index, length);
      Splice(s, 3 * (Start(f, op.index)), Expanded(PixelBytes(f, ColorsOf(op))))
  }

  /** One operation keeps the two buffers in step. */
  lemma StepRefines(s: seq<octet>, f: Format, length: nat, op: Op)
    requires |s| == Start(f, length)
    ensures SpiAfter(Expanded(s), f, length, op) == Expanded(RmtAfter(s, f, length, op))
  {
    hide Expanded, PixelBytes, Start;
    if Effective(f, length, op) && !op.Clear? {
      PixelFits(f, op.index, length);
      SpliceExpanded(s, Start(f, op.index), PixelBytes(f, ColorsOf(op)));
    }
  }

  function RmtRun(s: seq<octet>, f: Format, length: nat, ops: seq<Op>): (r: seq<octet>)
    requires |s| == Start(f, length)
    ensures |r| == |s|
    decreases |ops|
  {
    if ops == [] then s else RmtRun(RmtAfter(s, f, length, ops[0]), f, length, ops[1..])
  }

  function SpiRun(s: seq<octet>, f: Format, length: nat, ops: seq<Op>): (r: seq<octet>)
    requires |s| == 3 * (Start(f, length))
    ensures |r| == |s|
    decreases |ops|
  {
    if ops == [] then s else SpiRun(SpiAfter(s, f, length, ops[0]), f, length, ops[1..])
  }

  lemma {:induction false} RunRefines(s: seq<octet>, f: Format, length: nat, ops: seq<Op>)
    requires |s| == Start(f, length)
    ensures SpiRun(Expanded(s), f, length, ops) == Expanded(RmtRun(s, f, length, ops))
    decreases |ops|
  {
    hide Expanded, RmtAfter, SpiAfter, Start;
    if ops != [] {
      StepRefines(s, f, length, ops[0]);
      RunRefines(RmtAfter(s, f, length, ops[0]), f, length, ops[1..]);
    }
  }

  /**
   The SPI driver refines the RMT driver: whatever the buffers held before, after a clear and any common sequence of
   operations every SPI triple is the expansion of the matching RMT byte.
   */
  lemma SpiRefinesRmt(rmt: seq<octet>, spi: seq<octet>, f: Format, length: nat, ops: seq<Op>, x: nat)
    requires |rmt| == Start(f, length) && |spi| == 3 * |rmt| && x < |rmt|
    ensures At(SpiRun(spi, f, length, [Clear] + ops), x) == Expand(RmtRun(rmt, f, length, [Clear] + ops)[x])
  {
    hide Start, Expand;
    var all := [Clear] + ops;
    assert all[0] == Clear && all[1..] == ops;
    var zeros := Zeros(|rmt|);
    RunRefines(zeros, f, length, ops);
    ExpandedAt(RmtRun(zeros, f, length, ops), x);
  }

  /** The bytes of one pixel. */
  function PixelOf(s: seq<octet>, f: Format, index: nat, length: nat): seq<octet>
    requires index < length && |s| == Start(f, length)
  {
    PixelFits(f, index, length);
    s[Start(f, index)..Start(f, index) + BytesPerPixel(f)]
  }

  /** A pixel write shows its colours and disturbs no other pixel. */
  lemma OnlyThisPixel(s: seq<octet>, f: Format, length: nat, op: Op, other: nat)
    requires |s| == Start(f, length) && Effective(f, length, op) && !op.Clear? && other < length
    ensures PixelOf(RmtAfter(s, f, length, op), f, other, length)
            == if other == op.index then PixelBytes(f, ColorsOf(op)) else PixelOf(s, f, other, length)
  {
    hide BytesPerPixel, PixelBytes, Splice, Start;
    PixelFits(f, op.index, length);
    PixelFits(f, other, length);
    if other < op.index {
      PixelFits(f, other, op.index);
    } else if other > op.index {
      PixelFits(f, op.index, other);
    }
    SpliceApart(s, Start(f, op.index), PixelBytes(f, ColorsOf(op)), Start(f, other), Start(f, other) + BytesPerPixel(f));
  }

  /** The pixel at this index shows these colours now, and every byte outside it is as before. */
  predicate PixelSet(before: seq<octet>, after: seq<octet>, f: Format, index: nat, red: bv32, green: bv32, blue: bv32, white: bv32) {
    var size := f.components * f.bytesPerColor;
    var at := index * size;
    && |before| == |after| && at + size <= |after|
    && PixelShows(f, after[at..at + size], red, green, blue, white)
    && after[..at] == before[..at] && after[at + size..] == before[at + size..]
  }

  /** A pixel write sets its pixel. */
  lemma RmtSetsPixel(s: seq<octet>, f: Format, length: nat, op: Op)
    requires |s| == Start(f, length) && Effective(f, length, op) && !op.Clear? && Legal(f)
    ensures PixelSet(s, RmtAfter(s, f, length, op), f, op.index, op.red, op.green, op.blue, if op.SetPixelRgbw? then op.white else 0)
  {
    PixelBytesShow(f, ColorsOf(op));
    PixelFits(f, op.index, length);
    hide PixelBytes, PixelShows, Legal;
    SpliceParts(s, Start(f, op.index), PixelBytes(f, ColorsOf(op)));
    hide Splice;
  }

  lemma SpliceParts(s: seq<octet>, at: nat, p: seq<octet>)
    requires at + |p| <= |s|
    ensures var t := Splice(s, at, p);
            |t| == |s| && t[..at] == s[..at] && t[at..at + |p|] == p && t[at + |p|..] == s[at + |p|..]
  {
  }

  /** The same in the SPI buffer: from triple `at` on one for each of some bytes that show the colours, all other bytes as before. */
  predicate PixelSent(before: seq<octet>, after: seq<octet>, f: Format, at: nat, p: seq<octet>, red: bv32, green: bv32, blue: bv32, white: bv32) {
    && |before| == |after| && 3 * at + 3 * |p| <= |after|
    && PixelShows(f, p, red, green, blue, white)
    && (forall x {:trigger p[x]} :: 0 <= x < |p| ==> At(after, at + x) == Expand(p[x]))
    && after[..3 * at] == before[..3 * at] && after[3 * at + 3 * |p|..] == before[3 * at + 3 * |p|..]
  }

  lemma SpiSendsPixel(s: seq<octet>, f: Format, length: nat, op: Op)
    requires |s| == 3 * Start(f, length) && Effective(f, length, op) && !op.Clear? && Legal(f)
    ensures PixelSent(s, SpiAfter(s, f, length, op), f, op.index * (f.components * f.bytesPerColor), PixelBytes(f, ColorsOf(op)), op.red, op.green, op.blue, if op.SetPixelRgbw? then op.white else 0)
  {
    hide PixelBytes, PixelShows, Legal, Expand, Expanded, Splice, Start, BytesPerPixel;
    PixelBytesShow(f, ColorsOf(op));
    PixelFits(f, op.index, length);
    StartIs(f, op.index);
    var p, at := PixelBytes(f, ColorsOf(op)), Start(f, op.index);
    SpliceParts(s, 3 * at, Expanded(p));
    PartExpanded(Splice(s, 3 * at, Expanded(p)), at, p);
  }

  lemma StartIs(f: Format, index: nat)
    ensures Start(f, index) == index * (f.components * f.bytesPerColor)
  {
  }

  lemma PartExpanded(t: seq<octet>, at: nat, p: seq<octet>)
    requires 3 * at + 3 * |p| <= |t| && t[3 * at..3 * at + 3 * |p|] == Expanded(p)
    ensures forall x {:trigger p[x]} :: 0 <= x < |p| ==> At(t, at + x) == Expand(p[x])
  {
    hide Expand, Expanded;
    forall x {:trigger p[x]} | 0 <= x < |p|
      ensures At(t, at + x) == Expand(p[x])
    {
      ExpandedAt(p, x);
      PartAt(t, at, Expanded(p), x);
    }
  }

  lemma PartAt(t: seq<octet>, at: nat, e: seq<octet>, x: nat)
    requires 3 * at + |e| <= |t| && t[3 * at..3 * at + |e|] == e && 3 * x + 3 <= |e|
    ensures At(t, at + x) == At(e, x)
  {
    var part := t[3 * at..3 * at + |e|];
    assert part[3 * x] == t[3 * at + 3 * x] && part[3 * x + 1] == t[3 * at + 3 * x + 1] && part[3 * x + 2] == t[3 * at + 3 * x + 2];
  }

  /** After a clear every triple is the waveform of eight zero bits: 100 eight times. */
  lemma SpiClears(s: seq<octet>, f: Format, length: nat, x: nat)
    requires |s| == 3 * Start(f, length) && x < Start(f, length)
    ensures At(SpiAfter(s, f, length, Clear), x) == Triple(0x92, 0x49, 0x24)
  {
    hide Expand, Start;
    ExpandedAt(Zeros(Start(f, length)), x);
    DarkWaveform();
  }

  lemma DarkWaveform()
    ensures Expand(0) == Triple(0x92, 0x49, 0x24)
  {
  }
}
