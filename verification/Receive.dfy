/**
 Incremental reception: the input buffer collects one packet from a transport that hands out its bytes
 in pieces of any size, with timeouts in between.
 */
module Receive {
  import opened Bytes
  import opened Connection
  import R311 = Readers311
  import VarLen

  /** The bytes that ever arrive, how many of them have been read, and what the next reads will yield. */
  class Source {
    const stream: seq<byte>
    var pos: nat
    var plan: seq<int>      // at most so many bytes each, or an error; behind its end nothing arrives in time
    ghost var short: nat    // reads that returned less than asked for
    ghost var errors: nat   // reads that returned an error

    constructor (stream: seq<byte>, plan: seq<int>)
      ensures this.stream == stream && this.plan == plan && pos == 0
    {
      this.stream, this.plan := stream, plan;
      pos, short, errors := 0, 0, 0;
    }

    /** At most n bytes: a positive count, 0 for a timeout, or a negative error. */
    method Read(n: nat) returns (r: int, data: seq<byte>)
      requires pos <= |stream|
      modifies this
      ensures pos <= |stream| && r <= n
      ensures r == Yield(old(plan), n, |stream| - old(pos)) && plan == Drop(old(plan), 1)
      ensures short == old(short) + if r < n then 1 else 0
      ensures errors == old(errors) + if r < 0 then 1 else 0
      ensures r <= 0 ==> pos == old(pos) && data == []
      ensures r > 0 ==> pos == old(pos) + r && data == stream[old(pos)..pos]
    {
      r := Yield(plan, n, |stream| - pos);
      plan := Drop(plan, 1);
      data := [];
      if r > 0 {
        data := stream[pos..pos + r];
        pos := pos + r;
      }
      if r < n {
        short := short + 1;
      }
      if r < 0 {
        errors := errors + 1;
      }
    }
  }

  /** What a read of n bytes yields under this plan, with so many bytes left in the stream. */
  function Yield(plan: seq<int>, n: nat, left: nat): int {
    if plan == [] then 0
    else if plan[0] <= n && plan[0] <= left then plan[0]
    else if n <= left then n else left
  }

  function Drop(plan: seq<int>, k: nat): seq<int> {
    if k <= |plan| then plan[k..] else []
  }

  lemma SteadyBefore(plan: seq<int>, k: nat, m: nat)
    ensures m <= k && Steady(plan, k) ==> Steady(plan, m)
  {
  }

  function AtMost(x: int, n: nat): int { if x <= n then x else n }

  lemma YieldBehind(plan: seq<int>, k: nat, n: nat, left: nat)
    requires Steady(plan, k + 1) && 0 < n <= left
    ensures Yield(Drop(plan, k), n, left) == AtMost(plan[k], n) > 0
  {
  }

  /** The first k reads yield something. */
  predicate Steady(plan: seq<int>, k: nat) {
    k <= |plan| && forall i :: 0 <= i < k ==> plan[i] >= 1
  }

  /** mqtt_has_valid_msg_hdr: the flag bits that each packet type allows. */
  predicate ValidHeader(b: byte) {
    var t := MessageType(b);
    if t == TYPE_PUBLISH then Qos(b) < 3 && (Qos(b) > 0 || Dup(b) == 0)
    else if t == TYPE_PUBREL || t == TYPE_SUBSCRIBE || t == TYPE_UNSUBSCRIBE then b % 16 == 2
    else 1 <= t <= 14 && b % 16 == 0
  }

  /** The flags of section 2.2.2 of MQTT 3.1.1, type by type; a PUBLISH has no QoS 3, and no DUP with QoS 0. */
  lemma HeaderFlags(b: byte)
    ensures ValidHeader(b) <==>
              if b / 16 in {1, 2, 4, 5, 7, 9, 11, 12, 13, 14} then b % 16 == 0
              else if b / 16 in {6, 8, 10} then b % 16 == 2
              else b / 16 == 3 && b % 16 / 2 % 4 < 3 && (b % 16 / 2 % 4 == 0 ==> b % 16 < 8)
  {
    FlagBits(b);
    hide MessageType, Qos, Dup;
  }

  lemma FlagBits(b: byte)
    ensures MessageType(b) == b / 16 && Qos(b) == b % 16 / 2 % 4 && (Dup(b) == 0 <==> b % 16 < 8)
  {
    var t, f := b / 16, b % 16;
    assert b == 16 * t + f;
    assert b / 2 == 8 * t + f / 2;
    assert b / 8 == 2 * t + f / 8;
  }

  datatype Outcome =
    | Complete         // 1
    | Nothing          // 0
    | MidTimeout       // -1
    | TransportError   // -2, as the two below
    | InvalidHeader
    | TooBig
    | OutOfBuffer      // the read asked for would not end inside the buffer
    | ShiftUndefined   // a sixth length byte is shifted out of an int

  /** esp_mqtt_handle_transport_read_error */
  function ReadError(r: int, midMessage: bool): Outcome {
    if r < 0 then TransportError else if midMessage then MidTimeout else Nothing
  }

  function HeaderLength(n: nat): (h: nat)
    ensures 2 <= h && (n < 0x1000_0000 ==> h <= 5)
  {
    VarLen.FitsFourBytes(n);
    1 + |VarLen.Encode(n)|
  }

  function PacketLength(n: nat): nat { HeaderLength(n) + n }

  /** The bytes s start with a whole packet that has n body bytes. */
  predicate StartsPacket(s: seq<byte>, n: nat) {
    n < 0x1000_0000 && PacketLength(n) <= |s| && s[1..HeaderLength(n)] == VarLen.Encode(n)
  }

  /** The announced total does not fit an int and counts as negative. */
  predicate NegativeTotal(b: seq<byte>) {
    R311.Defined(b) && ToInt32(R311.Total32(b)) < 0
  }

  function Bits7(b: byte): nat { b % 128 }

  /** The value of the first four length bytes. */
  function Low28(b: seq<byte>): (v: nat)
    requires |b| >= 5
    ensures v < 0x1000_0000
  {
    Bits7(b[1]) + 128 * (Bits7(b[2]) + 128 * (Bits7(b[3]) + 128 * Bits7(b[4])))
  }

  lemma {:induction false} ValueBound(s: seq<byte>)
    ensures VarLen.Decode(s).value < VarLen.Shift(1, VarLen.Decode(s).used)
  {
    if s != [] && s[0] >= 128 {
      ValueBound(s[1..]);
    }
  }

  /** One byte off a length field. */
  lemma {:induction false} Peel(s: seq<byte>)
    requires VarLen.Decode(s).used >= 1
    ensures |s| >= 1
    ensures var d, e := VarLen.Decode(s), VarLen.Decode(s[1..]);
            if d.used == 1 then d.value == Bits7(s[0]) else e.used == d.used - 1 && d.value == Bits7(s[0]) + 128 * e.value
  {
    Unroll(s);
    Unroll(s[1..]);
    hide VarLen.Decode;
  }

  lemma {:induction false} Unroll(s: seq<byte>)
    ensures var d := VarLen.Decode(s);
            if s == [] then d.used == 0 && d.value == 0
            else if s[0] < 128 then d.used == 1 && d.value == Bits7(s[0])
            else d.used == 1 + VarLen.Decode(s[1..]).used && d.value == Bits7(s[0]) + 128 * VarLen.Decode(s[1..]).value
  {
    assert s != [] ==> Bits7(s[0]) == if s[0] < 128 then s[0] else s[0] - 128;
    hide Bits7;
  }

  lemma FiveGroups(s: seq<byte>)
    requires VarLen.Decode(s).used == 5
    ensures |s| >= 5
    ensures VarLen.Decode(s).value == Bits7(s[0]) + 128 * (Bits7(s[1]) + 128 * (Bits7(s[2]) + 128 * (Bits7(s[3]) + 128 * Bits7(s[4]))))
  {
    hide VarLen.Decode, Bits7;
    var s1 := s[1..];
    var s2 := s1[1..];
    Peel(s);
    Peel(s1);
    Peel(s2);
    Peel(s2[1..]);
    Peel(s2[1..][1..]);
    assert s2 == s[2..] && s2[1..] == s[3..] && s2[1..][1..] == s[4..];
  }

  lemma FieldValue(b: seq<byte>)
    requires b != [] && R311.Defined(b)
    ensures R311.HeaderEnd(b) < 6 ==> R311.TotalLength(b) < 0x1000_0006
    ensures R311.HeaderEnd(b) == 6 ==> |b| >= 6 && R311.TotalLength(b) == 6 + Low28(b) + 0x1000_0000 * Bits7(b[5])
  {
    var s := b[1..];
    ValueBound(s);
    var d := VarLen.Decode(s);
    assert VarLen.Shift(1, 1) == 0x80 && VarLen.Shift(1, 2) == 0x4000 && VarLen.Shift(1, 3) == 0x20_0000 && VarLen.Shift(1, 4) == 0x1000_0000;
    if d.used == 5 {
      FiveGroups(s);
    }
    hide VarLen.Decode, VarLen.Shift, Bits7;
  }

  lemma NegativeFrom(low: nat, bits: nat)
    requires low < 0x1000_0006 && bits < 128
    ensures (low + 0x1000_0000 * bits) % 0x1_0000_0000 >= 0x8000_0000 <==>
              if low >= 0x1000_0000 then 7 <= bits % 16 < 15 else 8 <= bits % 16
  {
    var d, q := bits % 16, bits / 16;
    assert low + 0x1000_0000 * bits == low + 0x1000_0000 * d + 0x1_0000_0000 * q;
    assert (low + 0x1000_0000 * d + 0x1_0000_0000 * q) % 0x1_0000_0000 == (low + 0x1000_0000 * d) % 0x1_0000_0000;
  }

  /** Exactly when a total counts as negative: by its fifth length byte, up to a carry from the header's own six bytes. */
  lemma NegativeByFifthByte(b: seq<byte>)
    requires b != [] && R311.Defined(b)
    ensures NegativeTotal(b) <==>
              R311.HeaderEnd(b) == 6 && var d, carry := Bits7(b[5]) % 16, 6 + Low28(b) >= 0x1000_0000;
                                        if carry then 7 <= d < 15 else 8 <= d
  {
    FieldValue(b);
    hide R311.HeaderEnd, R311.TotalLength, Low28;
    if R311.HeaderEnd(b) == 6 {
      assert Bits7(b[5]) < 128;
      NegativeFrom(6 + Low28(b), Bits7(b[5]));
    }
    hide Bits7;
  }

  /** Such a stream does not start with a packet, and an announced total on its way to be read past the buffer. */
  lemma FiveLengthBytes(rest: seq<byte>)
    ensures var s := [0x30, 0xFF, 0xFF, 0xFF, 0xFF, 0x08] + rest;
            && ValidHeader(s[0]) && MeasuredAt(s, 0, 6) && NegativeTotal(s[..6])
            && forall n: nat :: !StartsPacket(s, n)
  {
    var s := [0x30, 0xFF, 0xFF, 0xFF, 0xFF, 0x08] + rest;
    assert s[..6] == [0x30, 0xFF, 0xFF, 0xFF, 0xFF, 0x08];
    var f := s[..6][1..];
    assert f[1..][1..] == f[2..] && f[2..][1..] == f[3..] && f[3..][1..] == f[4..];
    assert VarLen.Decode(f[4..]).used == 1;
    assert VarLen.Decode(f[3..]).used == 2;
    assert VarLen.Decode(f[2..]).used == 3;
    assert VarLen.Decode(f).used == 5;
    NegativeByFifthByte(s[..6]);
    forall n: nat
      ensures !StartsPacket(s, n)
    {
      if StartsPacket(s, n) {
        LengthField(s, n, HeaderLength(n) - 1);
      }
    }
  }

  /** The length loop of a call that found k0 bytes buffered is over with k: the total length is taken from these. */
  predicate MeasuredAt(s: seq<byte>, k0: nat, k: nat) {
    var from := if k0 == 0 then 1 else k0;
    && k <= |s| && from <= k
    && if from == 1 || (from < 6 && s[from - 1] >= 128) then from < k <= 6 && High(s, from, k - 1) && (k == 6 || s[k - 1] < 128)
       else k == from
  }

  /** All bytes at these positions have the top bit set. */
  predicate High(s: seq<byte>, from: nat, to: nat)
    requires to <= |s|
  {
    forall j :: from <= j < to ==> s[j] >= 128
  }

  /**
   With k bytes buffered the next call takes the complete length field for unfinished, and every byte up to
   the end of the packet keeps it reading length bytes.
   */
  predicate Lost(s: seq<byte>, n: nat, k: nat)
    requires StartsPacket(s, n)
  {
    HeaderLength(n) < k && PacketLength(n) < 6 && High(s, k - 1, PacketLength(n))
  }

  /** Short packets that end in two bytes with the top bit set, such as a PUBACK for packet 0x8080. */
  predicate AtRisk(s: seq<byte>, n: nat)
    requires StartsPacket(s, n)
  {
    2 <= n && PacketLength(n) < 6 && s[PacketLength(n) - 2] >= 128 && s[PacketLength(n) - 1] >= 128
  }

  /** Exactly these packets can be lost by some split of the stream. */
  lemma LosableIffAtRisk(s: seq<byte>, n: nat)
    requires StartsPacket(s, n)
    ensures AtRisk(s, n) <==> exists k: nat :: k < PacketLength(n) && Lost(s, n, k)
  {
    if AtRisk(s, n) {
      assert Lost(s, n, PacketLength(n) - 1);
    }
    forall k: nat | k < PacketLength(n) && Lost(s, n, k)
      ensures AtRisk(s, n)
    {
      assert s[PacketLength(n) - 2] >= 128;
    }
  }

  lemma PubackAtRisk(rest: seq<byte>)
    ensures var s := [0x40, 2, 0x80, 0x80] + rest;
            StartsPacket(s, 2) && ValidHeader(s[0]) && Lost(s, 2, 3)
  {
  }

  /** The shape of the length field in a stream. */
  lemma LengthField(s: seq<byte>, n: nat, j: nat)
    requires StartsPacket(s, n) && 1 <= j < HeaderLength(n)
    ensures s[j] < 128 <==> j == HeaderLength(n) - 1
  {
    assert s[j] == s[1..HeaderLength(n)][j - 1];
    VarLen.EncodeShape(n, j - 1);
  }

  /** The length loop, entered with k bytes, has stopped with k1: the field is complete, and the packet is not overrun unless lost. */
  lemma LengthComplete(s: seq<byte>, n: nat, k: nat, k1: nat)
    requires StartsPacket(s, n) && 1 <= k <= k1 <= |s| && k1 <= 6
    requires k == 1 || s[k - 1] >= 128
    requires k < k1 && High(s, k, k1 - 1) && (s[k1 - 1] < 128 || k1 == 6)
    ensures HeaderLength(n) <= k1
    ensures k1 <= PacketLength(n) <==> !Lost(s, n, k)
  {
    var h := HeaderLength(n);
    LengthField(s, n, h - 1);
    if k < h {
      if k1 < h {
        LengthField(s, n, k1 - 1);
      }
      assert s[h - 1] < 128;
    }
  }

  /** Entered with the first byte only, the loop stops right behind the length field. */
  lemma LengthStop(s: seq<byte>, n: nat, k: nat, k1: nat)
    requires StartsPacket(s, n) && 1 <= k <= k1 <= |s| && k1 <= 6
    ensures k == 1 < k1 && High(s, k, k1 - 1) && (s[k1 - 1] < 128 || k1 == 6) ==> k1 == HeaderLength(n)
    ensures k == 1 && High(s, k, k1) ==> k1 < HeaderLength(n)
  {
    var h := HeaderLength(n);
    LengthField(s, n, h - 1);
    if 1 < k1 < h {
      LengthField(s, n, k1 - 1);
    }
  }

  /** The length loop, entered with k bytes, has timed out with k1. */
  lemma LengthTimeout(s: seq<byte>, n: nat, k: nat, k1: nat)
    requires StartsPacket(s, n) && 1 <= k <= k1 <= |s| && k1 < 6
    requires k == 1 || s[k - 1] >= 128
    requires High(s, k, k1)
    ensures if Lost(s, n, k) then Lost(s, n, k1) else k1 < PacketLength(n)
  {
    var h := HeaderLength(n);
    LengthField(s, n, h - 1);
  }

  /** The length loop, whether it has stopped or timed out with k1. */
  lemma LengthLoop(s: seq<byte>, n: nat, k: nat, k1: nat)
    requires StartsPacket(s, n) && 1 <= k <= k1 <= |s| && k1 <= 6 && (k == 1 || s[k - 1] >= 128)
    ensures k < k1 && High(s, k, k1 - 1) && (s[k1 - 1] < 128 || k1 == 6) ==>
              HeaderLength(n) <= k1 && (k1 <= PacketLength(n) <==> !Lost(s, n, k)) && (k == 1 ==> k1 == HeaderLength(n))
    ensures k1 < 6 && High(s, k, k1) ==>
              (if Lost(s, n, k) then Lost(s, n, k1) else k1 < PacketLength(n)) && (k == 1 ==> k1 < HeaderLength(n) <= |s|)
  {
    assert HeaderLength(n) <= |s|;
    hide StartsPacket, Lost;
    LengthStop(s, n, k, k1);
    if k < k1 && High(s, k, k1 - 1) && (s[k1 - 1] < 128 || k1 == 6) {
      LengthComplete(s, n, k, k1);
    }
    if k1 < 6 && High(s, k, k1) {
      LengthTimeout(s, n, k, k1);
    }
  }

  /** Past the length loop without entering it. */
  lemma LengthSkipped(s: seq<byte>, n: nat, k: nat)
    requires StartsPacket(s, n) && 2 <= k <= |s| && (k < PacketLength(n) || Lost(s, n, k))
    requires k >= 6 || s[k - 1] < 128
    ensures HeaderLength(n) <= k
    ensures k <= PacketLength(n) <==> !Lost(s, n, k)
  {
    var h := HeaderLength(n);
    LengthField(s, n, h - 1);
    if k < h {
      LengthField(s, n, k - 1);
    }
  }

  /** The total length is known as soon as the length field is complete. */
  lemma HeaderRead(s: seq<byte>, n: nat, k: nat)
    requires StartsPacket(s, n) && HeaderLength(n) <= k <= |s|
    ensures R311.HeaderEnd(s[..k]) == HeaderLength(n) && R311.TotalLength(s[..k]) == R311.Total32(s[..k]) == PacketLength(n)
    ensures R311.Defined(s[..k]) && !NegativeTotal(s[..k])
  {
    assert s[..k][1..HeaderLength(n)] == s[1..HeaderLength(n)];
    R311.HeaderOfBytes(s[..k], n);
  }

  class Receiver {
    const buffer: array<byte>   // in_buffer
    const source: Source
    var readLen: nat            // in_buffer_read_len
    var messageLength: nat
    ghost var base: nat         // stream position of the first buffered byte

    /** The buffer holds exactly the stream bytes since the last reset. */
    ghost predicate Valid()
      reads this`readLen, this`base, buffer, source
    {
      && 10 <= buffer.Length < 0x8000_0000 && readLen <= buffer.Length
      && base + readLen == source.pos <= |source.stream|
      && buffer[..readLen] == Ahead()[..readLen]
    }

    /** The stream from the first buffered byte on. */
    ghost function Ahead(): seq<byte>
      requires base <= |source.stream|
      reads this`base
    {
      source.stream[base..]
    }

    constructor (size: nat, source: Source)
      requires 10 <= size < 0x8000_0000 && source.pos <= |source.stream|
      ensures Valid() && fresh(buffer) && buffer.Length == size && this.source == source && readLen == 0
    {
      buffer := new byte[size](_ => 0);
      this.source := source;
      readLen, messageLength, base := 0, 0, source.pos;
    }

    /** One transport read of at most n bytes, behind the bytes already there. */
    method ReadMore(n: nat) returns (r: int)
      requires Valid() && readLen + n <= buffer.Length
      modifies this`readLen, buffer, source
      ensures Valid() && r <= n
      ensures readLen == old(readLen) + if r > 0 then r else 0
      ensures source.short == old(source.short) + if r < n then 1 else 0
      ensures source.errors == old(source.errors) + if r < 0 then 1 else 0
      ensures r == Yield(old(source.plan), n, |source.stream| - old(source.pos)) && source.plan == Drop(old(source.plan), 1)
    {
      var data;
      r, data := source.Read(n);
      if r > 0 {
        ghost var b := buffer[..];
        Copy(buffer, readLen, data);
        assert data == Ahead()[readLen..readLen + r];
        Filled(b, readLen, data, Ahead());
        assert buffer[..readLen + r] == buffer[..][..readLen + r];
        readLen := readLen + r;
      }
    }

    /** Starts on the next packet. */
    method Reset()
      requires 10 <= buffer.Length < 0x8000_0000 && base <= source.pos <= |source.stream|
      modifies this`readLen, this`base
      ensures Valid() && readLen == 0 && base == source.pos
    {
      base := source.pos;
      readLen := 0;
    }

    /** The do-while loop over the remaining-length bytes. */
    method ReadLength() returns (r: Outcome)
      requires Valid() && 1 <= readLen < 6
      modifies this`readLen, buffer, source
      ensures r in {Complete, MidTimeout, TransportError}
      ensures Valid() && old(readLen) <= readLen <= 6
      ensures source.short >= old(source.short) + if r == Complete then 0 else 1
      ensures source.errors == old(source.errors) + if r == TransportError then 1 else 0
      ensures r != Complete ==> readLen < 6 && High(Ahead(), old(readLen), readLen)
      ensures r != Complete ==> !Steady(old(source.plan), readLen - old(readLen) + 1) || readLen == |Ahead()|
      ensures r == Complete ==> old(readLen) < readLen && (Ahead()[readLen - 1] < 128 || readLen == 6)
      ensures r == Complete ==> High(Ahead(), old(readLen), readLen - 1) && source.plan == Drop(old(source.plan), readLen - old(readLen))
    {
      var more := true;
      while more
        invariant Valid() && old(readLen) <= readLen <= 6 && old(source.short) <= source.short && source.errors == old(source.errors)
        invariant more ==> readLen < 6 && High(Ahead(), old(readLen), readLen)
        invariant !more ==> old(readLen) < readLen && (Ahead()[readLen - 1] < 128 || readLen == 6)
        invariant !more ==> High(Ahead(), old(readLen), readLen - 1)
        invariant source.plan == Drop(old(source.plan), readLen - old(readLen))
        decreases more, 6 - readLen
      {
        var got := ReadMore(1);
        if got <= 0 {
          return ReadError(got, true);
        }
        assert buffer[readLen - 1] == buffer[..readLen][readLen - 1] == Ahead()[readLen - 1];
        more := readLen < 6 && buffer[readLen - 1] >= 128;
      }
      return Complete;
    }

    /** The first byte and its check. A byte that fails the check is consumed but not kept. */
    method ReadFirst() returns (r: Outcome)
      requires Valid() && readLen == 0
      modifies this`readLen, buffer, source
      ensures r in {Complete, Nothing, TransportError, InvalidHeader}
      ensures source.short >= old(source.short) + if r in {Complete, InvalidHeader} then 0 else 1
      ensures source.errors == old(source.errors) + if r == TransportError then 1 else 0
      ensures r != InvalidHeader ==> Valid() && readLen == if r == Complete then 1 else 0
      ensures r == Complete ==> ValidHeader(Ahead()[0])
      ensures r == InvalidHeader ==> base < |source.stream| && !ValidHeader(Ahead()[0])
      ensures r in {Nothing, TransportError} ==> !Steady(old(source.plan), 1) || Ahead() == []
      ensures source.plan == Drop(old(source.plan), 1)
    {
      var got := ReadMore(1);
      if got <= 0 {
        return ReadError(got, false);
      }
      assert buffer[0] == buffer[..1][0] == Ahead()[0];
      if !ValidHeader(buffer[0]) {
        readLen := 0;
        return InvalidHeader;
      }
      return Complete;
    }

    /** How much of the packet is collected before it is handed on: a PUBLISH larger than the buffer fills it once. */
    ghost function Goal(n: nat): nat {
      if buffer.Length < PacketLength(n) then buffer.Length else PacketLength(n)
    }

    /** Why a packet is refused for its size: larger than the buffer, and not a PUBLISH whose topic fits. */
    ghost predicate Refused(n: nat)
      requires 10 <= buffer.Length && base <= |source.stream| && StartsPacket(Ahead(), n)
      reads this`base
    {
      var s, h := Ahead(), HeaderLength(n);
      && buffer.Length < PacketLength(n)
      && (MessageType(s[0]) != TYPE_PUBLISH || buffer.Length < h + ReadBe16(s, h) + (if Qos(s[0]) > 0 then 2 else 0))
    }

    /** Only what is larger than the buffer is refused, and a PUBLISH (type 3) only when its topic and identifier do not fit. */
    lemma RefusedOnlyForSize(n: nat)
      requires 10 <= buffer.Length && base <= |source.stream| && StartsPacket(Ahead(), n)
      ensures var s, h := Ahead(), |VarLen.Encode(n)| + 1;
              Refused(n) <==> buffer.Length < h + n &&
                              (s[0] / 16 == 3 ==> buffer.Length < h + s[h] as int * 256 + s[h + 1] + if s[0] / 2 % 4 == 0 then 0 else 2)
    {
    }

    /** The call found the packet at the start of the buffer not complete, or lost. */
    ghost predicate OnTrack(n: nat)
      requires base <= |source.stream|
      reads this`base, this`readLen
    {
      StartsPacket(Ahead(), n) && (readLen < Goal(n) || Lost(Ahead(), n, readLen))
    }

    /** Where the packet really ends, as far as the buffer matters, from the bytes buffered so far. */
    method Measure(ghost n: nat) returns (r: Outcome, total: nat)
      requires Valid() && 2 <= readLen
      modifies this`readLen, this`messageLength, buffer, source
      ensures r in {Complete, Nothing, MidTimeout, TransportError, TooBig, OutOfBuffer, ShiftUndefined} && Valid()
      ensures source.short >= old(source.short) + if r in {Nothing, MidTimeout, TransportError} then 1 else 0
      ensures source.errors == old(source.errors) + if r == TransportError then 1 else 0
      ensures old(readLen) <= readLen
      ensures r == ShiftUndefined <==> !R311.Defined(Ahead()[..old(readLen)])
      ensures r == OutOfBuffer <==> NegativeTotal(Ahead()[..old(readLen)])
      ensures r != ShiftUndefined ==> messageLength == R311.Total32(Ahead()[..old(readLen)])
      ensures r == Complete ==> total == (if buffer.Length < messageLength then buffer.Length else messageLength)
      ensures r == Complete && messageLength <= buffer.Length ==> readLen == old(readLen) && source.plan == old(source.plan)
      ensures r !in {OutOfBuffer, ShiftUndefined} && messageLength <= buffer.Length ==> r == Complete
      ensures r == Nothing ==> readLen > old(readLen)
      ensures StartsPacket(Ahead(), n) && HeaderLength(n) <= old(readLen) ==>
                && messageLength == PacketLength(n) && r != OutOfBuffer && r != ShiftUndefined
                && (r == TooBig ==> Refused(n))
                && (r == Complete ==> !Refused(n) && total == Goal(n))
                && (r in {Nothing, MidTimeout} ==> readLen < Goal(n))
                && (readLen == old(readLen) || readLen < Goal(n))
    {
      ghost var b := Ahead()[..readLen];
      var unsigned, fixedLength, defined := R311.GetTotalLength(buffer, readLen);
      total := unsigned;
      HeaderInBuffer(Ahead(), n, readLen);
      if !defined {
        return ShiftUndefined, 0;
      }
      hide R311.HeaderEnd, R311.Total32, StartsPacket, Refused, HeaderLength;
      messageLength := unsigned;
      if ToInt32(unsigned) < 0 {
        // not larger than the buffer as an int, nor reached as a size_t: the rest is asked for with a length out of range
        return OutOfBuffer, 0;
      }
      r := Complete;
      if buffer.Length < total {
        r := MeasureLarge(n, fixedLength);
        total := buffer.Length;
      }
    }

    /** A packet larger than the buffer is refused unless it is a PUBLISH whose topic fits; then the buffer is filled once. */
    method MeasureLarge(ghost n: nat, fixedLength: nat) returns (r: Outcome)
      requires Valid() && 1 <= fixedLength <= readLen && fixedLength <= 6 && buffer.Length < messageLength
      requires StartsPacket(Ahead(), n) && HeaderLength(n) <= readLen ==> fixedLength == HeaderLength(n) <= 5 && messageLength == PacketLength(n)
      modifies this`readLen, buffer, source
      ensures r in {Complete, Nothing, MidTimeout, TransportError, TooBig} && Valid()
      ensures source.short >= old(source.short) + if r in {Complete, TooBig} then 0 else 1
      ensures source.errors == old(source.errors) + if r == TransportError then 1 else 0
      ensures old(readLen) <= readLen && (r == Nothing ==> readLen > old(readLen))
      ensures StartsPacket(Ahead(), n) && HeaderLength(n) <= old(readLen) ==>
                && (r == TooBig ==> Refused(n))
                && (r == Complete ==> !Refused(n))
                && (r in {Nothing, MidTimeout} ==> readLen < Goal(n))
                && (readLen == old(readLen) || readLen < Goal(n))
    {
      hide StartsPacket, HeaderLength;
      assert buffer[0] == buffer[..readLen][0] == Ahead()[0];
      if MessageType(buffer[0]) != TYPE_PUBLISH {
        return TooBig;
      }
      r := ReadTopicLength(fixedLength);
      if r != Complete {
        return;
      }
      ghost var s := Ahead();
      assert buffer[fixedLength] == buffer[..readLen][fixedLength] == s[fixedLength];
      assert buffer[fixedLength + 1] == buffer[..readLen][fixedLength + 1] == s[fixedLength + 1];
      assert buffer[0] == buffer[..readLen][0] == s[0];
      var topicLength := buffer[fixedLength] as int * 0x100 + buffer[fixedLength + 1];
      if buffer.Length < fixedLength + topicLength + (if Qos(buffer[0]) > 0 then 2 else 0) {
        return TooBig;
      }
    }

    /** The two bytes behind the fixed header of a PUBLISH larger than the buffer. */
    method ReadTopicLength(fixedLength: nat) returns (r: Outcome)
      requires Valid() && fixedLength <= readLen && fixedLength <= 6
      modifies this`readLen, buffer, source
      ensures r in {Complete, Nothing, MidTimeout, TransportError} && Valid()
      ensures source.short >= old(source.short) + if r == Complete then 0 else 1
      ensures source.errors == old(source.errors) + if r == TransportError then 1 else 0
      ensures readLen == old(readLen) || old(readLen) < readLen <= fixedLength + 4
      ensures r == Complete ==> fixedLength + 2 <= readLen
      ensures r in {Nothing, MidTimeout} ==> old(readLen) <= readLen < fixedLength + 2
      ensures r == Nothing ==> readLen > old(readLen)
    {
      if readLen < fixedLength + 2 {
        // one byte more than missing when the first of the two is already there
        var got := ReadMore(readLen - fixedLength + 2);
        if got <= 0 {
          return ReadError(got, true);
        }
        if readLen < fixedLength + 2 {
          return Nothing;
        }
      }
      return Complete;
    }

    method ReadRest(total: nat) returns (r: Outcome)
      requires Valid() && total <= buffer.Length
      modifies this`readLen, buffer, source
      ensures r in {Complete, Nothing, MidTimeout, TransportError} && Valid() && old(readLen) <= readLen
      ensures source.short >= old(source.short) + if r == Complete then 0 else 1
      ensures source.errors == old(source.errors) + if r == TransportError then 1 else 0
      ensures r == Complete ==> readLen == (if old(readLen) < total then total else old(readLen))
      ensures r in {Nothing, MidTimeout} ==> old(readLen) <= readLen < total
      ensures r == Nothing ==> readLen > old(readLen)
      ensures old(readLen) < total ==>
                var got := Yield(old(source.plan), total - old(readLen), |source.stream| - old(source.pos));
                got > 0 ==> r in {Complete, Nothing} && readLen == old(readLen) + got
    {
      if readLen < total {
        var got := ReadMore(total - readLen);
        if got <= 0 {
          return ReadError(got, true);
        }
        if readLen < total {
          return Nothing;
        }
      }
      return Complete;
    }

    /**
     mqtt_message_receive, for every stream and every splitting of it. The buffer holds exactly the stream bytes since
     the last reset. The call asks for bytes outside the buffer if and only if the total announced by the k bytes it has
     when the length loop is over is negative, and a sixth length byte leaves the total undefined. At a packet the call
     completes with exactly that packet buffered, or a PUBLISH larger than the buffer filling it, unless the state was lost.
     */
    method MessageReceive(ghost n: nat) returns (r: Outcome, ghost k: nat)
      requires Valid()
      modifies this`readLen, this`messageLength, buffer, source
      ensures r != InvalidHeader ==> Valid() && (old(readLen) <= readLen)
      ensures r == InvalidHeader ==> Ahead() != [] && !ValidHeader(Ahead()[0]) && old(readLen) == 0
      ensures r in {Complete, TooBig, OutOfBuffer, ShiftUndefined} ==> k > 0
      ensures k > 0 ==>
                && r != InvalidHeader && MeasuredAt(Ahead(), old(readLen), k) && k <= readLen
                && (r == ShiftUndefined <==> !R311.Defined(Ahead()[..k]))
                && (r == OutOfBuffer <==> NegativeTotal(Ahead()[..k]))
      ensures r == Complete ==>
                && messageLength == R311.Total32(Ahead()[..k])
                && readLen == if messageLength <= k then k else if buffer.Length < messageLength then buffer.Length else messageLength
      ensures r == Complete && old(readLen) == 0 ==> ValidHeader(Ahead()[0])
      // the first byte that arrives is refused exactly for the wrong flags of its type
      ensures old(readLen) == 0 && Steady(old(source.plan), 1) && Ahead() != [] ==>
                var t, flags := Ahead()[0] / 16, Ahead()[0] % 16;
                (r != InvalidHeader <==>
                  if t in {1, 2, 4, 5, 7, 9, 11, 12, 13, 14} then flags == 0
                  else if t in {6, 8, 10} then flags == 2
                  else t == 3 && flags / 2 % 4 < 3 && (flags / 2 % 4 == 0 ==> flags < 8))
      ensures source.short >= old(source.short) + if r in {Nothing, MidTimeout, TransportError} then 1 else 0
      ensures source.errors == old(source.errors) + if r == TransportError then 1 else 0
      ensures if r == Nothing then readLen == 0 || readLen > old(readLen) else r == MidTimeout ==> 1 <= readLen
      ensures old(OnTrack(n)) ==> FramesPacket(n, old(readLen), r)
      ensures old(readLen) == 0 && StartsPacket(Ahead(), n) && 0 < n && PacketLength(n) <= buffer.Length && ValidHeader(Ahead()[0])
              && Steady(old(source.plan), HeaderLength(n) + 1) ==>
                r in {Complete, Nothing} && readLen == HeaderLength(n) + AtMost(old(source.plan)[HeaderLength(n)], n)
    {
      ghost var plan := source.plan;
      assert Steady(plan, HeaderLength(n) + 1) ==> Steady(Drop(plan, 1), HeaderLength(n)) && Drop(plan, 1)[HeaderLength(n) - 1] == plan[HeaderLength(n)];
      assert StartsPacket(Ahead(), n) ==> !Lost(Ahead(), n, 0) && !Lost(Ahead(), n, 1);
      hide Lost, StartsPacket, Refused, VarLen.Encode, R311.HeaderEnd, R311.Total32, NegativeTotal;
      messageLength, k := 0, 0;
      if readLen == 0 {
        if Ahead() != [] {
          HeaderFlags(Ahead()[0]);
        }
        hide ValidHeader;
        r := ReadFirst();
        if r != Complete {
          return;
        }
      }
      r, k := Resume(n);
    }

    /** The call with at least one byte buffered. */
    method Resume(ghost n: nat) returns (r: Outcome, ghost k: nat)
      requires Valid() && 1 <= readLen
      modifies this`readLen, this`messageLength, buffer, source
      ensures r in {Complete, Nothing, MidTimeout, TransportError, TooBig, OutOfBuffer, ShiftUndefined} && Valid() && old(readLen) <= readLen
      ensures r in {Complete, TooBig, OutOfBuffer, ShiftUndefined} ==> k > 0
      ensures k > 0 ==>
                && MeasuredAt(Ahead(), old(readLen), k) && k <= readLen
                && (r == ShiftUndefined <==> !R311.Defined(Ahead()[..k]))
                && (r == OutOfBuffer <==> NegativeTotal(Ahead()[..k]))
      ensures r == Complete ==>
                && messageLength == R311.Total32(Ahead()[..k])
                && readLen == if messageLength <= k then k else if buffer.Length < messageLength then buffer.Length else messageLength
      ensures source.short >= old(source.short) + if r in {Nothing, MidTimeout, TransportError} then 1 else 0
      ensures source.errors == old(source.errors) + if r == TransportError then 1 else 0
      ensures r == Nothing ==> readLen > old(readLen)
      ensures old(OnTrack(n)) ==> FramesPacket(n, old(readLen), r)
      ensures old(readLen) == 1 && StartsPacket(Ahead(), n) && 0 < n && PacketLength(n) <= buffer.Length && Steady(old(source.plan), HeaderLength(n)) ==>
                r in {Complete, Nothing} && readLen == HeaderLength(n) + AtMost(old(source.plan)[HeaderLength(n) - 1], n)
    {
      ghost var plan, s := source.plan, Ahead();
      if StartsPacket(s, n) && 0 < n && Steady(plan, HeaderLength(n)) {
        YieldBehind(plan, HeaderLength(n) - 1, n, |s| - HeaderLength(n));
      }
      hide Lost, StartsPacket, Refused, VarLen.Encode, HeaderLength, R311.HeaderEnd, R311.Total32, MeasuredAt, NegativeTotal, Yield, Drop;
      k := 0;
      r := FinishLength(n);
      if r != Complete {
        return;
      }
      k := readLen;
      r := Collect(n);
    }

    /** The second half of the call, with k bytes buffered. */
    method Collect(ghost n: nat) returns (r: Outcome)
      requires Valid() && 2 <= readLen
      modifies this`readLen, this`messageLength, buffer, source
      ensures r in {Complete, Nothing, MidTimeout, TransportError, TooBig, OutOfBuffer, ShiftUndefined} && Valid() && old(readLen) <= readLen
      ensures source.short >= old(source.short) + if r in {Nothing, MidTimeout, TransportError} then 1 else 0
      ensures source.errors == old(source.errors) + if r == TransportError then 1 else 0
      ensures r == ShiftUndefined <==> !R311.Defined(Ahead()[..old(readLen)])
      ensures r == OutOfBuffer <==> NegativeTotal(Ahead()[..old(readLen)])
      ensures r == Nothing ==> readLen > old(readLen)
      ensures r == Complete ==>
                && messageLength == R311.Total32(Ahead()[..old(readLen)])
                && readLen == if messageLength <= old(readLen) then old(readLen) else if buffer.Length < messageLength then buffer.Length else messageLength
      ensures StartsPacket(Ahead(), n) && HeaderLength(n) <= old(readLen) ==>
                && r != OutOfBuffer && r != ShiftUndefined
                && (r == TooBig ==> Refused(n))
                && (r == Complete ==> messageLength == PacketLength(n) && !Refused(n) && readLen == if old(readLen) <= Goal(n) then Goal(n) else old(readLen))
                && (r in {Nothing, MidTimeout} ==> readLen < Goal(n))
      ensures StartsPacket(Ahead(), n) && HeaderLength(n) == old(readLen) && PacketLength(n) <= buffer.Length && n > 0 ==>
                var got := Yield(old(source.plan), n, |source.stream| - old(source.pos));
                got > 0 ==> r in {Complete, Nothing} && readLen == old(readLen) + got
    {
      hide StartsPacket, Refused, R311.HeaderEnd, R311.Total32, NegativeTotal, HeaderLength, VarLen.Encode;
      var total;
      r, total := Measure(n);
      if r != Complete {
        return;
      }
      r := ReadRest(total);
    }

    /** What a call at a packet with n body bytes does that found k bytes buffered. */
    ghost predicate FramesPacket(n: nat, k: nat, r: Outcome)
      requires 10 <= buffer.Length && base <= |source.stream| && StartsPacket(Ahead(), n)
      reads this`base, this`readLen, this`messageLength
    {
      var lost := Lost(Ahead(), n, k);
      && (r == TooBig ==> Refused(n))
      && r != OutOfBuffer && r != ShiftUndefined
      && (r == Complete ==> messageLength == PacketLength(n) && !Refused(n) && if lost then readLen > PacketLength(n) else readLen == Goal(n))
      && (r in {Nothing, MidTimeout} ==> if lost then Lost(Ahead(), n, readLen) else readLen < Goal(n))
    }

    /** The length field, resumed where the last call left it. */
    method FinishLength(ghost n: nat) returns (r: Outcome)
      requires Valid() && 1 <= readLen
      modifies this`readLen, buffer, source
      ensures r in {Complete, MidTimeout, TransportError} && Valid() && old(readLen) <= readLen
      ensures source.short >= old(source.short) + if r == Complete then 0 else 1
      ensures source.errors == old(source.errors) + if r == TransportError then 1 else 0
      ensures r == Complete ==> 2 <= readLen && MeasuredAt(Ahead(), old(readLen), readLen)
      ensures old(OnTrack(n)) && r == Complete ==>
                HeaderLength(n) <= readLen && if Lost(Ahead(), n, old(readLen)) then readLen > PacketLength(n) else readLen <= Goal(n)
      ensures old(OnTrack(n)) && r == MidTimeout ==>
                if Lost(Ahead(), n, old(readLen)) then Lost(Ahead(), n, readLen) else readLen < Goal(n)
      ensures old(readLen) == 1 && StartsPacket(Ahead(), n) && Steady(old(source.plan), HeaderLength(n) - 1) ==>
                r == Complete && readLen == HeaderLength(n) && source.plan == Drop(old(source.plan), HeaderLength(n) - 1)
    {
      hide HeaderLength, PacketLength, StartsPacket, Lost, Drop, Yield;
      ghost var s, k, plan := Ahead(), readLen, source.plan;
      assert buffer[readLen - 1] == buffer[..readLen][readLen - 1] == s[readLen - 1];
      hide Receiver.Ahead;
      if readLen == 1 || (readLen < 6 && buffer[readLen - 1] >= 128) {
        r := ReadLength();
        if StartsPacket(s, n) {
          LengthLoop(s, n, k, readLen);
          SteadyBefore(plan, HeaderLength(n) - 1, readLen);
        }
      } else {
        if old(OnTrack(n)) {
          LengthSkipped(s, n, readLen);
        }
        r := Complete;
      }
    }
  }

  /**
   Every packet at risk is lost by a split: read byte by byte up to its last but one, and then on, it is never
   completed with the right bytes.
   */
  method LoseBySplit(stream: seq<byte>, n: nat, size: nat, later: seq<int>) returns (rc: Receiver, first: Outcome, second: Outcome)
    requires StartsPacket(stream, n) && AtRisk(stream, n) && ValidHeader(stream[0]) && 10 <= size < 0x8000_0000
    ensures first == Nothing && rc.source.stream == stream
    ensures second !in {OutOfBuffer, ShiftUndefined, InvalidHeader, TooBig}
    ensures second == Complete ==> rc.Valid() && rc.base == 0 && rc.readLen > PacketLength(n)
    ensures second in {Nothing, MidTimeout} ==> rc.Valid() && rc.base == 0 && Lost(stream, n, rc.readLen)
  {
    var h, k := HeaderLength(n), PacketLength(n) - 1;
    LostInEnd(stream, n);
    hide AtRisk, Lost, StartsPacket, HeaderLength, Receiver.Refused;
    var plan := seq(h, i => 1) + [k - h] + later;
    assert Steady(plan, h + 1) && plan[h] == k - h;
    hide Steady;
    var source := new Source(stream, plan);
    rc := new Receiver(size, source);
    assert rc.Ahead() == stream;
    ghost var measured;
    first, measured := rc.MessageReceive(n);
    assert rc.Ahead() == stream && rc.readLen == k;
    second, measured := rc.MessageReceive(n);
    assert rc.Ahead() == stream;
  }

  lemma LostInEnd(s: seq<byte>, n: nat)
    requires StartsPacket(s, n) && AtRisk(s, n)
    ensures Lost(s, n, PacketLength(n) - 1) && HeaderLength(n) < PacketLength(n) - 1 < 5
  {
  }

  /** What the readers see of a length field that is complete. */
  lemma HeaderInBuffer(s: seq<byte>, n: nat, k: nat)
    requires k <= |s|
    ensures StartsPacket(s, n) && HeaderLength(n) <= k ==>
              && R311.HeaderEnd(s[..k]) == HeaderLength(n) <= 5 && R311.Total32(s[..k]) == PacketLength(n)
              && R311.Defined(s[..k]) && !NegativeTotal(s[..k])
  {
    if StartsPacket(s, n) && HeaderLength(n) <= k {
      HeaderRead(s, n, k);
    }
  }

  lemma Filled(b: seq<byte>, k: nat, data: seq<byte>, ahead: seq<byte>)
    requires k + |data| <= |b| && k + |data| <= |ahead|
    requires b[..k] == ahead[..k] && data == ahead[k..k + |data|]
    ensures Splice(b, k, data)[..k + |data|] == ahead[..k + |data|]
  {
  }
}
