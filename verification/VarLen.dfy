/**
 The variable-length integer of MQTT: seven bits a byte, least significant group first,
 the top bit saying that another byte follows (section 2.2.3 of MQTT 3.1.1, section 1.5.5 of MQTT 5.0).
 */
module VarLen {
  import opened Bytes

  function Encode(n: nat): (e: seq<byte>)
    ensures |e| >= 1
  {
    if n < 128 then [n] else [n % 128 + 128] + Encode(n / 128)
  }

  /** Value read, and number of bytes it took; `done` is false if the input ended on a continuation byte. */
  datatype Decoded = Decoded(value: nat, used: nat, done: bool)

  function Decode(s: seq<byte>): (d: Decoded)
    ensures d.used <= |s|
  {
    if s == [] then Decoded(0, 0, false)
    else if s[0] < 128 then Decoded(s[0], 1, true)
    else
      var rest := Decode(s[1..]);
      Decoded(s[0] - 128 + 128 * rest.value, rest.used + 1, rest.done)
  }

  /** Reading back an encoded number gives the number and its length, whatever follows it. */
  lemma {:induction false} DecodeEncode(n: nat, rest: seq<byte>)
    ensures Decode(Encode(n) + rest) == Decoded(n, |Encode(n)|, true)
  {
    if n >= 128 {
      var s := Encode(n) + rest;
      assert s[1..] == Encode(n / 128) + rest;
      DecodeEncode(n / 128, rest);
    }
  }

  /** Only the last byte of an encoding has its top bit clear. */
  lemma {:induction false} EncodeShape(n: nat, i: nat)
    requires i < |Encode(n)|
    ensures Encode(n)[i] < 128 <==> i == |Encode(n)| - 1
  {
    if i > 0 {
      EncodeShape(n / 128, i - 1);
    }
  }

  /** No complete byte string for n is shorter than the encoding. */
  lemma {:induction false} EncodeIsShortest(n: nat, s: seq<byte>)
    requires Decode(s).done && Decode(s).value == n
    ensures |Encode(n)| <= Decode(s).used
  {
    if s[0] >= 128 && n >= 128 {
      EncodeIsShortest(n / 128, s[1..]);
    }
  }

  /** The encoded length as a function of the magnitude. */
  lemma EncodedSize(n: nat)
    ensures |Encode(n)| == 1 <==> n < 0x80
    ensures |Encode(n)| == 2 <==> 0x80 <= n < 0x4000
    ensures |Encode(n)| == 3 <==> 0x4000 <= n < 0x20_0000
    ensures |Encode(n)| == 4 <==> 0x20_0000 <= n < 0x1000_0000
    ensures |Encode(n)| > 4 <==> n >= 0x1000_0000
  {
  }

  lemma FitsFourBytes(n: nat)
    ensures |Encode(n)| <= 4 <==> n < 0x1000_0000
  {
    EncodedSize(n);
  }

  /** The do-while loop that produces the length bytes. */
  method Generate(n: nat) returns (e: seq<byte>)
    ensures e == Encode(n)
  {
    var len := n;
    e := [];
    var more := true;
    while more
      invariant more ==> Encode(n) == e + Encode(len)
      invariant !more ==> Encode(n) == e
      decreases more, len
    {
      var i := len % 128;
      len := len / 128;
      if len > 0 {
        i := i + 128;
      }
      e := e + [i];
      more := len > 0;
    }
  }

  /** x << 7 * k */
  function Shift(x: nat, k: nat): nat {
    if k == 0 then x else 128 * Shift(x, k - 1)
  }

  lemma {:induction false} ShiftGroups(b: nat, v: nat, k: nat)
    ensures Shift(b + 128 * v, k) == Shift(b, k) + Shift(v, k + 1)
  {
    if k > 0 {
      ShiftGroups(b, v, k - 1);
    }
  }

  lemma {:induction false} ShiftZero(k: nat)
    ensures Shift(0, k) == 0
  {
    if k > 0 {
      ShiftZero(k - 1);
    }
  }

  /** One turn of the reading loop over s, at group k. */
  lemma ReadStep(s: seq<byte>, k: nat)
    requires k < |s|
    ensures s[k] < 128 ==> Shift(Decode(s[k..]).value, k) == Shift(s[k] % 128, k) && Decode(s[k..]).used == 1
    ensures s[k] >= 128 ==>
              && Shift(Decode(s[k..]).value, k) == Shift(s[k] % 128, k) + Shift(Decode(s[k + 1..]).value, k + 1)
              && Decode(s[k..]).used == 1 + Decode(s[k + 1..]).used
  {
    assert s[k..][1..] == s[k + 1..];
    if s[k] >= 128 {
      ShiftGroups(s[k] % 128, Decode(s[k + 1..]).value, k);
    }
  }

  /**
   The loop that reads a length field from a[offset..length]. The value wraps at 32 bits; a sixth length byte would be
   shifted by more than that, which is not defined.
   */
  method Read(a: array<byte>, offset: nat, length: nat) returns (value: uint32, used: nat, defined: bool)
    requires offset <= length <= a.Length
    ensures used == Decode(a[offset..length]).used
    ensures defined <==> used <= 5
    ensures defined ==> value == Decode(a[offset..length]).value % 0x1_0000_0000
  {
    ghost var s := a[offset..length];
    ghost var all, sum := Decode(s), 0;
    value, used, defined := 0, 0, true;
    assert s[used..] == s;
    while offset + used < length
      invariant used <= |s| && (defined <==> used <= 5)
      invariant sum >= 0 && all.value == sum + Shift(Decode(s[used..]).value, used)
      invariant all.used == used + Decode(s[used..]).used
      invariant defined ==> value == sum % 0x1_0000_0000
    {
      ReadStep(s, used);
      hide Decode, Shift;
      var b := a[offset + used];
      assert b == s[used];
      ghost var part := Shift(b % 128, used);
      if used < 5 {
        value := (value + Shift(b % 128, used)) % 0x1_0000_0000;
        AddedModulo(sum, part);
      } else {
        defined := false;
      }
      sum := sum + part;
      used := used + 1;
      if b < 128 {
        return;
      }
    }
    assert s[used..] == [];
    ShiftZero(used);
  }

  lemma AddedModulo(sum: int, part: int)
    ensures (sum % 0x1_0000_0000 + part) % 0x1_0000_0000 == (sum + part) % 0x1_0000_0000
  {
  }
}
