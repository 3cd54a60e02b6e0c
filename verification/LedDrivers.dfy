/** The two LED strip drivers, writing their buffers in place. */
module LedDrivers {
  import opened Bytes
  import opened LedStrip

  lemma Size(f: Format)
    requires Legal(f)
    ensures BytesPerPixel(f) == Off(f, f.components - 1) + f.bytesPerColor
  {
  }

  /** The turn of the byte loop in which byte y of a pixel is written. */
  function Turn(f: Format, y: nat): int {
    y - Off(f, Position(f, y))
  }

  lemma TurnPlace(f: Format, p: nat, i: nat)
    requires Legal(f) && p < f.components && i < f.bytesPerColor
    ensures Off(f, p) + i < BytesPerPixel(f) && Position(f, Off(f, p) + i) == p && Turn(f, Off(f, p) + i) == i
  {
    Size(f);
  }

  /** Byte i of the component at place p. */
  lemma TurnAt(f: Format, c: Colors, p: nat, i: nat)
    requires Legal(f) && p < f.components && i < f.bytesPerColor
    ensures Off(f, p) + i < BytesPerPixel(f) && Position(f, Off(f, p) + i) == p && Turn(f, Off(f, p) + i) == i
    ensures PixelByte(f, c, Off(f, p) + i) == ColorByte(ColorAt(f, c, p), f.bytesPerColor - 1 - i)
  {
  }

  /** The component that a byte of a pixel belongs to. */
  lemma PlaceOf(f: Format, y: nat)
    requires Legal(f) && y < BytesPerPixel(f)
    ensures Position(f, y) < f.components && 0 <= Turn(f, y) < f.bytesPerColor && y == Off(f, Position(f, y)) + Turn(f, y)
  {
    Size(f);
    hide BytesPerPixel, Ordered;
  }

  lemma PlacesTaken(f: Format, p: nat)
    requires Legal(f) && p < f.components
    ensures p == f.rPos || p == f.gPos || p == f.bPos || (f.components > 3 && p == f.wPos)
  {
  }

  /** Turn i writes byte i of every component, and nothing else. */
  lemma WrittenInTurn(f: Format, y: nat, i: nat)
    requires Legal(f) && y < BytesPerPixel(f) && i < f.bytesPerColor
    ensures 0 <= Turn(f, y) < f.bytesPerColor
    ensures Turn(f, y) == i <==>
              || y == Off(f, f.rPos) + i || y == Off(f, f.gPos) + i || y == Off(f, f.bPos) + i
              || (f.components > 3 && y == Off(f, f.wPos) + i)
  {
    PlaceOf(f, y);
    PlacesTaken(f, Position(f, y));
    hide BytesPerPixel, Off, Position, Turn;
    TurnPlace(f, f.rPos, i);
    TurnPlace(f, f.gPos, i);
    TurnPlace(f, f.bPos, i);
    if f.components > 3 {
      TurnPlace(f, f.wPos, i);
    }
  }

  /**
   After i turns: the places of earlier turns show the bytes of the pixel, all others are as before. What a place shows
   of a byte is the byte itself in the RMT buffer and its triple in the SPI buffer.
   */
  ghost predicate Progress<E>(before: seq<E>, s: seq<E>, start: nat, f: Format, c: Colors, i: nat, show: octet -> E) {
    && |s| == |before| && start + BytesPerPixel(f) <= |s|
    && (forall x {:trigger s[x]} :: 0 <= x < |s| ==>
          s[x] == if start <= x < start + BytesPerPixel(f) && Turn(f, x - start) < i then show(PixelByte(f, c, x - start)) else before[x])
  }

  /** What one turn assigns: four places, the last one unused without white, and four bytes. */
  datatype Writes = Writes(r: nat, g: nat, b: nat, w: nat, red: octet, green: octet, blue: octet, white: octet)

  function WritesOf(f: Format, c: Colors, i: nat): Writes
    requires i < f.bytesPerColor
  {
    var k := f.bytesPerColor - 1 - i;
    Writes(Off(f, f.rPos) + i, Off(f, f.gPos) + i, Off(f, f.bPos) + i, Off(f, f.wPos) + i,
           ColorByte(c.red, k), ColorByte(c.green, k), ColorByte(c.blue, k), ColorByte(c.white, k))
  }

  /** The assignments of one turn. */
  function TurnOf<E>(s: seq<E>, start: nat, white: bool, a: Writes, show: octet -> E): (t: seq<E>)
    requires start + a.r < |s| && start + a.g < |s| && start + a.b < |s| && (white ==> start + a.w < |s|)
    ensures |t| == |s|
  {
    var t := s[start + a.r := show(a.red)][start + a.g := show(a.green)][start + a.b := show(a.blue)];
    if white then t[start + a.w := show(a.white)] else t
  }

  /** The places of a turn are distinct places of the pixel, and get the bytes the pixel has there. */
  lemma WritesFit(f: Format, c: Colors, i: nat)
    requires Legal(f) && i < f.bytesPerColor
    ensures var a, size := WritesOf(f, c, i), BytesPerPixel(f);
            && a.r < size && a.g < size && a.b < size && a.r != a.g && a.r != a.b && a.g != a.b
            && PixelByte(f, c, a.r) == a.red && PixelByte(f, c, a.g) == a.green && PixelByte(f, c, a.b) == a.blue
            && (f.components > 3 ==> a.w < size && a.w != a.r && a.w != a.g && a.w != a.b && PixelByte(f, c, a.w) == a.white)
  {
    hide BytesPerPixel, Off, Position, ColorByte, PixelByte, Turn;
    TurnAt(f, c, f.rPos, i);
    TurnAt(f, c, f.gPos, i);
    TurnAt(f, c, f.bPos, i);
    if f.components > 3 {
      TurnAt(f, c, f.wPos, i);
    }
  }

  /** Where a turn puts what. */
  lemma TurnPoint<E>(s: seq<E>, start: nat, f: Format, c: Colors, i: nat, show: octet -> E, x: nat)
    requires Legal(f) && start + BytesPerPixel(f) <= |s| && i < f.bytesPerColor && x < |s|
    requires var a := WritesOf(f, c, i); start + a.r < |s| && start + a.g < |s| && start + a.b < |s| && (f.components > 3 ==> start + a.w < |s|)
    ensures TurnOf(s, start, f.components > 3, WritesOf(f, c, i), show)[x]
            == if start <= x < start + BytesPerPixel(f) && Turn(f, x - start) == i then show(PixelByte(f, c, x - start)) else s[x]
  {
    hide BytesPerPixel, Off, Position, ColorByte, PixelByte, Turn, Ordered;
    WritesFit(f, c, i);
    if start <= x < start + BytesPerPixel(f) {
      WrittenInTurn(f, x - start, i);
    }
  }

  lemma MoreProgress<E>(before: seq<E>, s: seq<E>, start: nat, f: Format, c: Colors, i: nat, show: octet -> E)
    requires Legal(f) && i < f.bytesPerColor && Progress(before, s, start, f, c, i, show)
    ensures var a := WritesOf(f, c, i);
            && start + a.r < |s| && start + a.g < |s| && start + a.b < |s| && (f.components > 3 ==> start + a.w < |s|)
            && Progress(before, TurnOf(s, start, f.components > 3, a, show), start, f, c, i + 1, show)
  {
    hide BytesPerPixel, PixelByte, Turn, WritesOf, TurnOf;
    WritesFit(f, c, i);
    var t := TurnOf(s, start, f.components > 3, WritesOf(f, c, i), show);
    forall x {:trigger t[x]} | 0 <= x < |t|
      ensures t[x] == if start <= x < start + BytesPerPixel(f) && Turn(f, x - start) < i + 1 then show(PixelByte(f, c, x - start)) else before[x]
    {
      TurnPoint(s, start, f, c, i, show, x);
    }
  }

  lemma NoProgress<E>(s: seq<E>, start: nat, f: Format, c: Colors, show: octet -> E)
    requires Legal(f) && start + BytesPerPixel(f) <= |s|
    ensures Progress(s, s, start, f, c, 0, show)
  {
  }

  /** All turns done: every place of the pixel shows its byte. */
  lemma AllTurns<E>(before: seq<E>, s: seq<E>, start: nat, f: Format, c: Colors, show: octet -> E, x: nat)
    requires Legal(f) && Progress(before, s, start, f, c, f.bytesPerColor, show) && x < |s|
    ensures s[x] == if start <= x < start + BytesPerPixel(f) then show(PixelBytes(f, c)[x - start]) else before[x]
  {
  }

  function Plain(b: octet): octet { b }

  lemma PixelComplete(before: seq<octet>, s: seq<octet>, start: nat, f: Format, c: Colors)
    requires Legal(f) && Progress(before, s, start, f, c, f.bytesPerColor, Plain)
    ensures s == Splice(before, start, PixelBytes(f, c))
  {
  }

  class RmtStrip {
    const f: Format
    const length: nat             // strip_len
    const buffer: array<octet>    // pixel_buf

    ghost predicate Valid() {
      Legal(f) && buffer.Length == Start(f, length)
    }

    constructor (f: Format, length: nat)
      requires Legal(f)
      ensures Valid() && fresh(buffer) && this.f == f && this.length == length
    {
      this.f, this.length := f, length;
      buffer := new octet[Start(f, length)](_ => 0);
    }

    /** led_strip_new_rmt_device, as far as format and buffer go. */
    static method NewDevice(format: Format, unspecified: bool, ws2816: bool, length: nat) returns (strip: RmtStrip?)
      requires format.rPos < 4 && format.gPos < 4 && format.bPos < 4 && format.wPos < 4
      ensures strip != null <==> Ordered(Settled(format, unspecified, ws2816))
      ensures strip != null ==> strip.Valid() && fresh(strip) && strip.f == Settled(format, unspecified, ws2816) && strip.length == length
      // GRB is the default order; two bytes a colour for WS2816, else the number given, or one
      ensures strip != null && unspecified ==> strip.f.rPos == 1 && strip.f.gPos == 0 && strip.f.bPos == 2 && strip.f.components == 3
      ensures strip != null && !unspecified ==> strip.f == format.(bytesPerColor := strip.f.bytesPerColor)
      ensures strip != null ==>
                strip.f.bytesPerColor == if ws2816 then 2 else if unspecified || format.bytesPerColor == 0 then 1 else format.bytesPerColor
    {
      var f := Settled(format, unspecified, ws2816);
      MaskAcceptsPermutations(f);
      if !OrderAccepted(f) {
        return null;
      }
      strip := new RmtStrip(f, length);
    }

    /** led_strip_rmt_set_pixel */
    method SetPixel(index: nat, red: bv32, green: bv32, blue: bv32) returns (ok: bool)
      requires Valid()
      modifies buffer
      ensures ok == Effective(f, length, LedStrip.SetPixel(index, red, green, blue))
      ensures buffer[..] == RmtAfter(old(buffer[..]), f, length, LedStrip.SetPixel(index, red, green, blue))
      ensures ok <==> index < length
      ensures if ok then PixelSet(old(buffer[..]), buffer[..], f, index, red, green, blue, 0) else buffer[..] == old(buffer[..])
    {
      if index >= length {
        return false;
      }
      RmtSetsPixel(buffer[..], f, length, LedStrip.SetPixel(index, red, green, blue));
      Store(index, Colors(red, green, blue, 0));
      return true;
    }

    /** led_strip_rmt_set_pixel_rgbw */
    method SetPixelRgbw(index: nat, red: bv32, green: bv32, blue: bv32, white: bv32) returns (ok: bool)
      requires Valid()
      modifies buffer
      ensures ok == Effective(f, length, LedStrip.SetPixelRgbw(index, red, green, blue, white))
      ensures buffer[..] == RmtAfter(old(buffer[..]), f, length, LedStrip.SetPixelRgbw(index, red, green, blue, white))
      ensures ok <==> index < length && f.components == 4
      ensures if ok then PixelSet(old(buffer[..]), buffer[..], f, index, red, green, blue, white) else buffer[..] == old(buffer[..])
    {
      if index >= length || f.components != 4 {
        return false;
      }
      RmtSetsPixel(buffer[..], f, length, LedStrip.SetPixelRgbw(index, red, green, blue, white));
      Store(index, Colors(red, green, blue, white));
      return true;
    }

    /** led_strip_rmt_clear */
    method Clear()
      requires Valid()
      modifies buffer
      ensures buffer[..] == RmtAfter(old(buffer[..]), f, length, LedStrip.Clear)
      ensures forall i {:trigger buffer[i]} :: 0 <= i < buffer.Length ==> buffer[i] == 0
    {
      forall i | 0 <= i < buffer.Length {
        buffer[i] := 0;
      }
    }

    /** The loop over the bytes of the components. */
    method Store(index: nat, c: Colors)
      requires Valid() && index < length
      modifies buffer
      ensures Start(f, index) + BytesPerPixel(f) <= buffer.Length
      ensures buffer[..] == Splice(old(buffer[..]), Start(f, index), PixelBytes(f, c))
    {
      hide BytesPerPixel, Start, Off, ColorByte, PixelByte, PixelBytes;
      PixelFits(f, index, length);
      var n, start := f.bytesPerColor, Start(f, index);
      ghost var before := buffer[..];
      NoProgress(before, start, f, c, Plain);
      hide Progress;
      for i := 0 to n
        invariant Progress(before, buffer[..], start, f, c, i, Plain)
      {
        MoreProgress(before, buffer[..], start, f, c, i, Plain);
        WriteTurn(start, c, i);
      }
      PixelComplete(before, buffer[..], start, f, c);
    }

    method WriteTurn(start: nat, c: Colors, i: nat)
      requires Legal(f) && start + BytesPerPixel(f) <= buffer.Length && i < f.bytesPerColor
      modifies buffer
      ensures var a := WritesOf(f, c, i);
              && start + a.r < buffer.Length && start + a.g < buffer.Length && start + a.b < buffer.Length
              && (f.components > 3 ==> start + a.w < buffer.Length)
              && buffer[..] == TurnOf(old(buffer[..]), start, f.components > 3, a, Plain)
    {
      hide BytesPerPixel, Off, Position, ColorByte, PixelByte, Turn, Ordered, WritesOf;
      WritesFit(f, c, i);
      var a := WritesOf(f, c, i);
      hide Legal;
      Put(start + a.r, a.red);
      Put(start + a.g, a.green);
      Put(start + a.b, a.blue);
      if f.components > 3 {
        Put(start + a.w, a.white);
      }
    }

    method Put(at: nat, b: octet)
      requires at < buffer.Length
      modifies buffer
      ensures buffer[..] == old(buffer[..])[at := Plain(b)]
    {
      buffer[at] := b;
    }
  }

  /** The SPI buffer as triples. */
  function Triples(s: seq<octet>, n: nat): (t: seq<Triple>)
    requires |s| == 3 * n
    ensures |t| == n && forall x {:trigger t[x]} :: 0 <= x < n ==> t[x] == At(s, x)
  {
    seq(n, x requires 0 <= x < n => At(s, x))
  }

  lemma OrDark(data: octet)
    ensures Or(DARK, Expand(data)) == Expand(data)
  {
  }

  class SpiStrip {
    const f: Format
    const length: nat
    const buffer: array<octet>

    ghost predicate Valid() {
      Legal(f) && buffer.Length == 3 * Start(f, length)
    }

    /** The buffer as triples. */
    ghost function View(): (v: seq<Triple>)
      requires Valid()
      reads buffer
      ensures |v| == Start(f, length)
    {
      Triples(buffer[..], Start(f, length))
    }

    constructor (f: Format, length: nat)
      requires Legal(f)
      ensures Valid() && fresh(buffer) && this.f == f && this.length == length
    {
      this.f, this.length := f, length;
      buffer := new octet[3 * Start(f, length)](_ => 0);
    }

    /** led_strip_new_spi_device, as far as format and buffer go. */
    static method NewDevice(format: Format, unspecified: bool, ws2816: bool, length: nat) returns (strip: SpiStrip?)
      requires format.rPos < 4 && format.gPos < 4 && format.bPos < 4 && format.wPos < 4
      ensures strip != null <==> Ordered(Settled(format, unspecified, ws2816))
      ensures strip != null ==> strip.Valid() && fresh(strip) && strip.f == Settled(format, unspecified, ws2816) && strip.length == length
      // GRB is the default order; two bytes a colour for WS2816, else the number given, or one
      ensures strip != null && unspecified ==> strip.f.rPos == 1 && strip.f.gPos == 0 && strip.f.bPos == 2 && strip.f.components == 3
      ensures strip != null && !unspecified ==> strip.f == format.(bytesPerColor := strip.f.bytesPerColor)
      ensures strip != null ==>
                strip.f.bytesPerColor == if ws2816 then 2 else if unspecified || format.bytesPerColor == 0 then 1 else format.bytesPerColor
    {
      var f := Settled(format, unspecified, ws2816);
      MaskAcceptsPermutations(f);
      if !OrderAccepted(f) {
        return null;
      }
      strip := new SpiStrip(f, length);
    }

    /** led_strip_spi_set_pixel */
    method SetPixel(index: nat, red: bv32, green: bv32, blue: bv32) returns (ok: bool)
      requires Valid()
      modifies buffer
      ensures ok == Effective(f, length, LedStrip.SetPixel(index, red, green, blue))
      ensures buffer[..] == SpiAfter(old(buffer[..]), f, length, LedStrip.SetPixel(index, red, green, blue))
      ensures ok <==> index < length
      ensures if ok then PixelSent(old(buffer[..]), buffer[..], f, index * (f.components * f.bytesPerColor), PixelBytes(f, Colors(red, green, blue, 0)), red, green, blue, 0) else buffer[..] == old(buffer[..])
    {
      if index >= length {
        return false;
      }
      SpiSendsPixel(buffer[..], f, length, LedStrip.SetPixel(index, red, green, blue));
      Store(index, Colors(red, green, blue, 0));
      return true;
    }

    /** led_strip_spi_set_pixel_rgbw */
    method SetPixelRgbw(index: nat, red: bv32, green: bv32, blue: bv32, white: bv32) returns (ok: bool)
      requires Valid()
      modifies buffer
      ensures ok == Effective(f, length, LedStrip.SetPixelRgbw(index, red, green, blue, white))
      ensures buffer[..] == SpiAfter(old(buffer[..]), f, length, LedStrip.SetPixelRgbw(index, red, green, blue, white))
      ensures ok <==> index < length && f.components == 4
      ensures if ok then PixelSent(old(buffer[..]), buffer[..], f, index * (f.components * f.bytesPerColor), PixelBytes(f, Colors(red, green, blue, white)), red, green, blue, white) else buffer[..] == old(buffer[..])
    {
      if index >= length || f.components != 4 {
        return false;
      }
      SpiSendsPixel(buffer[..], f, length, LedStrip.SetPixelRgbw(index, red, green, blue, white));
      Store(index, Colors(red, green, blue, white));
      return true;
    }

    /** led_strip_spi_clear: zero bytes first, then the waveform of a zero byte everywhere. */
    method Clear()
      requires Valid()
      modifies buffer
      ensures buffer[..] == SpiAfter(old(buffer[..]), f, length, LedStrip.Clear)
      ensures forall x {:trigger At(buffer[..], x)} :: 0 <= x && 3 * x + 3 <= buffer.Length ==> At(buffer[..], x) == Triple(0x92, 0x49, 0x24)
    {
      hide Start, Expand, Expanded, BytesPerPixel;
      var n := Start(f, length);
      ZeroFrom(0, n);
      for x := 0 to n
        invariant forall y {:trigger View()[y]} :: 0 <= y < n ==> View()[y] == if y < x then Expand(0) else DARK
      {
        OrDark(0);
        SpiBit(0, x);
      }
      assert View() == Triples(buffer[..], n);
      AllDark(buffer[..], n);
      forall x {:trigger At(buffer[..], x)} | 0 <= x < n
        ensures At(buffer[..], x) == Triple(0x92, 0x49, 0x24)
      {
        SpiClears(buffer[..], f, length, x);
      }
    }

    /** memset of the triples from..to */
    method ZeroFrom(from: nat, to: nat)
      requires Valid() && from <= to <= Start(f, length)
      modifies buffer
      ensures forall x {:trigger View()[x]} :: 0 <= x < Start(f, length) ==> View()[x] == if from <= x < to then DARK else old(View())[x]
    {
      hide Start;
      ghost var before := buffer[..];
      forall i | 3 * from <= i < 3 * to {
        buffer[i] := 0;
      }
      forall x | 0 <= x < Start(f, length)
        ensures At(buffer[..], x) == if from <= x < to then DARK else At(before, x)
      {
      }
    }

    /** Zero bytes for the pixel, then the loop over the bytes of the components. */
    method Store(index: nat, c: Colors)
      requires Valid() && index < length
      modifies buffer
      ensures 3 * Start(f, index) + 3 * BytesPerPixel(f) <= buffer.Length
      ensures buffer[..] == Splice(old(buffer[..]), 3 * Start(f, index), Expanded(PixelBytes(f, c)))
    {
      hide BytesPerPixel, Start, Off, ColorByte, PixelByte, PixelBytes, Expand, Expanded, WritesOf, TurnOf, Turn, Ordered, Triples;
      PixelFits(f, index, length);
      var n, start := f.bytesPerColor, Start(f, index);
      ghost var was := buffer[..];
      ZeroFrom(start, start + BytesPerPixel(f));
      ghost var zeroed := View();
      NoProgress(zeroed, start, f, c, Expand);
      for i := 0 to n
        invariant Progress(zeroed, View(), start, f, c, i, Expand)
      {
        StillDark(zeroed, View(), start, f, c, i);
        MoreProgress(zeroed, View(), start, f, c, i, Expand);
        WriteTurn(start, c, i);
      }
      SpiComplete(was, buffer[..], zeroed, start, f, c, Start(f, length));
    }

    method WriteTurn(start: nat, c: Colors, i: nat)
      requires Valid() && start + BytesPerPixel(f) <= Start(f, length) && i < f.bytesPerColor
      requires PlacesDark(View(), start, f, c, i)
      modifies buffer
      ensures var a := WritesOf(f, c, i);
              && start + a.r < |View()| && start + a.g < |View()| && start + a.b < |View()| && (f.components > 3 ==> start + a.w < |View()|)
              && View() == TurnOf(old(View()), start, f.components > 3, a, Expand)
    {
      hide BytesPerPixel, Start, Off, Position, ColorByte, PixelByte, Turn, Ordered, Expand, Triples, WritesOf, Or;
      WritesFit(f, c, i);
      var a := WritesOf(f, c, i);
      hide TurnOf, View;
      WriteDark(start, f.components > 3, a);
    }

    method WriteDark(start: nat, white: bool, a: Writes)
      requires Valid()
      requires var n := Start(f, length); start + a.r < n && start + a.g < n && start + a.b < n && (white ==> start + a.w < n)
      requires a.r != a.g && a.r != a.b && a.g != a.b && (white ==> a.w != a.r && a.w != a.g && a.w != a.b)
      requires View()[start + a.r] == View()[start + a.g] == View()[start + a.b] == DARK && (white ==> View()[start + a.w] == DARK)
      modifies buffer
      ensures View() == TurnOf(old(View()), start, white, a, Expand)
    {
      hide Start, Expand, Triples, Or;
      TurnOfTriples(View(), start, white, a);
      hide TurnOf, View;
      SetThreeDark(a.red, start + a.r, a.green, start + a.g, a.blue, start + a.b);
      if white {
        SetDark(a.white, start + a.w);
      }
    }

    method SetThreeDark(red: octet, r: nat, green: octet, g: nat, blue: octet, b: nat)
      requires Valid() && r < Start(f, length) && g < Start(f, length) && b < Start(f, length) && r != g && r != b && g != b
      requires View()[r] == DARK && View()[g] == DARK && View()[b] == DARK
      modifies buffer
      ensures View() == old(View())[r := Expand(red)][g := Expand(green)][b := Expand(blue)]
    {
      hide Start, View, Expand;
      SetDark(red, r);
      SetDark(green, g);
      SetDark(blue, b);
    }

    /** The same on a triple that is still dark. */
    method SetDark(data: octet, x: nat)
      requires Valid() && x < Start(f, length) && View()[x] == DARK
      modifies buffer
      ensures View() == old(View())[x := Expand(data)]
    {
      OrDark(data);
      hide Expand, Start, Or, Triples;
      SpiBit(data, x);
    }

    /** __led_strip_spi_bit: ORs the waveform of a colour byte into triple x. */
    method SpiBit(data: octet, x: nat)
      requires Valid() && x < Start(f, length)
      modifies buffer
      ensures View() == old(View())[x := Or(old(View())[x], Expand(data))]
    {
      hide Start, Expand, Or;
      ghost var before := buffer[..];
      OrInTurns(At(before, x), data);
      OrInto(3 * x + 2, if data & 0x01 != 0 then 0x04 | 0x02 else 0x04, if data & 0x02 != 0 then 0x20 | 0x10 else 0x20, if data & 0x04 != 0 then 0x80 else 0x00);
      OrInto(3 * x + 1, 0x01, if data & 0x08 != 0 then 0x08 | 0x04 else 0x08, if data & 0x10 != 0 then 0x40 | 0x20 else 0x40);
      OrInto(3 * x, if data & 0x20 != 0 then 0x02 | 0x01 else 0x02, if data & 0x40 != 0 then 0x10 | 0x08 else 0x10, if data & 0x80 != 0 then 0x80 | 0x40 else 0x80);
      TripleChanged(before, buffer[..], Start(f, length), x);
    }

    /** Three times *at |= … */
    method OrInto(at: nat, a: octet, b: octet, c: octet)
      requires at < buffer.Length
      modifies buffer
      ensures buffer[..] == old(buffer[..])[at := old(buffer[at]) | a | b | c]
    {
      buffer[at] := buffer[at] | a;
      buffer[at] := buffer[at] | b;
      buffer[at] := buffer[at] | c;
    }
  }

  /** Bits ORed in one after the other are ORed in together. */
  lemma OrInTurns(t: Triple, data: octet)
    ensures Or(t, Expand(data)) == Triple(
              t.t0 | (if data & 0x20 != 0 then 0x02 | 0x01 else 0x02) | (if data & 0x40 != 0 then 0x10 | 0x08 else 0x10) | (if data & 0x80 != 0 then 0x80 | 0x40 else 0x80),
              t.t1 | 0x01 | (if data & 0x08 != 0 then 0x08 | 0x04 else 0x08) | (if data & 0x10 != 0 then 0x40 | 0x20 else 0x40),
              t.t2 | (if data & 0x01 != 0 then 0x04 | 0x02 else 0x04) | (if data & 0x02 != 0 then 0x20 | 0x10 else 0x20) | (if data & 0x04 != 0 then 0x80 else 0x00))
  {
  }

  /** A change inside triple x changes that triple only. */
  lemma TripleChanged(s: seq<octet>, t: seq<octet>, n: nat, x: nat)
    requires |s| == |t| == 3 * n && x < n
    requires forall i {:trigger t[i]} :: 0 <= i < |s| && !(3 * x <= i < 3 * x + 3) ==> t[i] == s[i]
    ensures Triples(t, n) == Triples(s, n)[x := At(t, x)]
  {
  }

  lemma TurnOfTriples(s: seq<Triple>, start: nat, white: bool, a: Writes)
    requires start + a.r < |s| && start + a.g < |s| && start + a.b < |s| && (white ==> start + a.w < |s|)
    ensures var t := s[start + a.r := Expand(a.red)][start + a.g := Expand(a.green)][start + a.b := Expand(a.blue)];
            TurnOf(s, start, white, a, Expand) == if white then t[start + a.w := Expand(a.white)] else t
  {
  }

  /** The places of this turn are still dark. */
  predicate PlacesDark(s: seq<Triple>, start: nat, f: Format, c: Colors, i: nat)
    requires i < f.bytesPerColor
  {
    var a := WritesOf(f, c, i);
    && start + a.r < |s| && s[start + a.r] == DARK && start + a.g < |s| && s[start + a.g] == DARK && start + a.b < |s| && s[start + a.b] == DARK
    && (f.components > 3 ==> start + a.w < |s| && s[start + a.w] == DARK)
  }

  lemma StillDark(zeroed: seq<Triple>, s: seq<Triple>, start: nat, f: Format, c: Colors, i: nat)
    requires Legal(f) && i < f.bytesPerColor && Progress(zeroed, s, start, f, c, i, Expand)
    requires forall x {:trigger zeroed[x]} :: start <= x < start + BytesPerPixel(f) && x < |zeroed| ==> zeroed[x] == DARK
    ensures PlacesDark(s, start, f, c, i)
  {
    hide BytesPerPixel, Off, Position, ColorByte, PixelByte, Turn, Ordered, Expand;
    WritesFit(f, c, i);
    var a := WritesOf(f, c, i);
    WrittenInTurn(f, a.r, i);
    WrittenInTurn(f, a.g, i);
    WrittenInTurn(f, a.b, i);
    if f.components > 3 {
      WrittenInTurn(f, a.w, i);
    }
  }

  /** All turns done: the pixel's triples are the expansion of its bytes, the others as they were. */
  lemma SpiComplete(before: seq<octet>, s: seq<octet>, zeroed: seq<Triple>, start: nat, f: Format, c: Colors, n: nat)
    requires Legal(f) && |before| == |s| == 3 * n && start + BytesPerPixel(f) <= n == |zeroed|
    requires Progress(zeroed, Triples(s, n), start, f, c, f.bytesPerColor, Expand)
    requires forall x {:trigger zeroed[x]} :: 0 <= x < n && !(start <= x < start + BytesPerPixel(f)) ==> zeroed[x] == Triples(before, n)[x]
    ensures s == Splice(before, 3 * start, Expanded(PixelBytes(f, c)))
  {
    var p := PixelBytes(f, c);
    var t := Splice(before, 3 * start, Expanded(p));
    hide BytesPerPixel, PixelBytes, Expand, Expanded;
    forall x {:trigger At(s, x)} | 0 <= x < n
      ensures At(s, x) == At(t, x)
    {
      AllTurns(zeroed, Triples(s, n), start, f, c, Expand, x);
      SpliceAt(before, start, Expanded(p), |p|, x);
      if start <= x < start + |p| {
        ExpandedAt(p, x - start);
      }
    }
    hide Progress, Splice;
    SameTriples(s, t, n);
  }

  lemma SpliceAt(s: seq<octet>, start: nat, p: seq<octet>, m: nat, x: nat)
    requires |p| == 3 * m && 3 * start + 3 * m <= |s| && 3 * x + 3 <= |s|
    ensures At(Splice(s, 3 * start, p), x) == if start <= x < start + m then At(p, x - start) else At(s, x)
  {
  }

  lemma {:induction false} ZerosExpand(n: nat, x: nat)
    requires x < n
    ensures At(Expanded(Zeros(n)), x) == Expand(0)
  {
    ExpandedAt(Zeros(n), x);
  }

  lemma AllDark(s: seq<octet>, n: nat)
    requires |s| == 3 * n && forall x {:trigger Triples(s, n)[x]} :: 0 <= x < n ==> Triples(s, n)[x] == Expand(0)
    ensures s == Expanded(Zeros(n))
  {
    hide Expand, Expanded;
    forall x {:trigger At(s, x)} | 0 <= x < n
      ensures At(s, x) == At(Expanded(Zeros(n)), x)
    {
      ZerosExpand(n, x);
      assert Triples(s, n)[x] == At(s, x);
    }
    SameTriples(s, Expanded(Zeros(n)), n);
  }
}
