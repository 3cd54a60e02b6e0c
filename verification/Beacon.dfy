/** Passive discovery: which beacon frames name a neighbor, and the address it is listed under. */
module Beacon {
  import opened Bytes
  import opened Neighbors

  const HEADER_SIZE := 36
  const MAX_SSID := 32
  const MESH_ID: seq<byte> := [0x47, 0x4c, 0x4f, 0x57, 0x20, 0x01]

  const ESPRESSIF_OUIS: seq<seq<byte>> := [
    [0x24, 0x6f, 0x28], [0x30, 0xae, 0xa4], [0x7c, 0xdf, 0xa1], [0x84, 0xf3, 0xeb], [0xac, 0x27, 0x6e],
    [0xc8, 0xf0, 0x9e], [0xcc, 0xdb, 0xa7], [0xdc, 0x54, 0x75], [0xe8, 0xf6, 0x0a], [0xec, 0x94, 0xcb]]

  /** An information element: an identifier and a body of at most 255 bytes (section 9.4.2 of IEEE 802.11-2020). */
  datatype Element = Element(id: byte, body: seq<byte>)

  predicate WellFormed(e: Element) { |e.body| < 0x100 }

  function Serialize(es: seq<Element>): seq<byte>
    requires forall i {:trigger es[i]} :: 0 <= i < |es| ==> WellFormed(es[i])
  {
    if es == [] then []
    else
      assert WellFormed(es[0]);
      [es[0].id, |es[0].body| as byte] + es[0].body + Serialize(es[1..])
  }

  /** The complete elements from offset o on. */
  function Elements(s: seq<byte>, o: nat): (es: seq<Element>)
    requires o <= |s|
    ensures forall i {:trigger es[i]} :: 0 <= i < |es| ==> WellFormed(es[i])
    decreases |s| - o
  {
    if o + 2 > |s| || o + 2 + s[o + 1] as int > |s| then []
    else
      var end := o + 2 + s[o + 1] as int;
      [Element(s[o], s[o + 2..end])] + Elements(s, end)
  }

  function Clip(body: seq<byte>): seq<byte> {
    if |body| < MAX_SSID then body else body[..MAX_SSID]
  }

  /** The first SSID among the elements, clipped, or nothing. */
  function SsidOf(es: seq<Element>): (ssid: seq<byte>)
    ensures |ssid| <= MAX_SSID
  {
    if es == [] then []
    else if es[0].id == 0 then Clip(es[0].body)
    else SsidOf(es[1..])
  }

  /** What may be left over behind the last complete element: less than the next one announces. */
  predicate Truncated(tail: seq<byte>) {
    |tail| < 2 || |tail| < 2 + tail[1] as int
  }

  /** One element at the front of what is left. */
  lemma ElementAt(s: seq<byte>, o: nat, e: Element, rest: seq<byte>)
    requires WellFormed(e) && o <= |s| && s[o..] == [e.id, |e.body| as byte] + e.body + rest
    ensures var end := o + 2 + |e.body|;
            && end <= |s| && s[o] == e.id && s[o + 1] as int == |e.body| && s[o + 2..end] == e.body && s[end..] == rest
  {
  }

  /** Walking the elements inverts their serialization, and a truncated last element is ignored. */
  lemma {:induction false} ElementsInvertSerialize(s: seq<byte>, o: nat, es: seq<Element>, tail: seq<byte>)
    requires (forall i {:trigger es[i]} :: 0 <= i < |es| ==> WellFormed(es[i])) && Truncated(tail)
    requires o <= |s| && s[o..] == Serialize(es) + tail
    ensures Elements(s, o) == es
    decreases |es|
  {
    if es == [] {
      assert s[o..] == tail;
      assert |tail| >= 2 ==> s[o + 1] == s[o..][1];
    } else {
      assert WellFormed(es[0]);
      ElementAt(s, o, es[0], Serialize(es[1..]) + tail);
      ElementsInvertSerialize(s, o + 2 + |es[0].body|, es[1..], tail);
    }
  }

  /** A management frame of type beacon or probe response. */
  predicate BeaconType(control: byte) {
    control / 4 % 4 == 0 && (control / 16 == 8 || control / 16 == 5)
  }

  predicate ValidMac(mac: Mac) {
    mac != [0, 0, 0, 0, 0, 0] && mac != [0xff, 0xff, 0xff, 0xff, 0xff, 0xff] && mac[0] % 2 == 0
  }

  /** Address and SSID of a beacon. */
  datatype Info = Info(mac: Mac, ssid: seq<byte>)

  function InfoOf(frame: seq<byte>): Option<Info> {
    if |frame| < HEADER_SIZE || !BeaconType(frame[0]) || !ValidMac(frame[16..22]) then None
    else Some(Info(frame[16..22], SsidOf(Elements(frame, HEADER_SIZE))))
  }

  /** The SSID is the body of the first element with identifier 0, cut off behind 32 bytes, or nothing. */
  lemma {:induction false} SsidIsFirst(es: seq<Element>, i: nat)
    requires i <= |es| && (i < |es| ==> es[i].id == 0) && forall j {:trigger es[j]} :: 0 <= j < i ==> es[j].id != 0
    ensures i == |es| ==> SsidOf(es) == []
    ensures i < |es| && |es[i].body| <= 32 ==> SsidOf(es) == es[i].body
    ensures i < |es| && |es[i].body| > 32 ==> SsidOf(es) == es[i].body[..32]
    decreases i
  {
    if i > 0 {
      SsidIsFirst(es[1..], i - 1);
    } else if es != [] && |es[0].body| == 32 {
      assert es[0].body[..32] == es[0].body;
    }
  }

  /** The same in bytes: the element behind the header names the frame, or is passed over. */
  lemma SsidInBytes(frame: seq<byte>)
    requires InfoOf(frame).Some?
    ensures var ssid := InfoOf(frame).value.ssid;
            if |frame| < 38 || |frame| < 38 + frame[37] as int then ssid == []
            else if frame[36] == 0 then ssid == frame[38..38 + if frame[37] < 32 then frame[37] else 32]
            else InfoOf(frame[..36] + frame[38 + frame[37]..]) == InfoOf(frame)
  {
    var es := Elements(frame, HEADER_SIZE);
    if 38 <= |frame| && 38 + frame[37] as int <= |frame| {
      var end := 38 + frame[37] as int;
      assert es[0] == Element(frame[36], frame[38..end]);
      var rest := frame[..36] + frame[end..];
      ElementsMoved(rest, 36, frame, end);
      assert es[1..] == Elements(frame, end);
      assert rest[0] == frame[0] && rest[16..22] == frame[16..22];
    }
  }

  /** The elements depend only on the bytes from the offset on. */
  lemma {:induction false} ElementsMoved(s: seq<byte>, o: nat, t: seq<byte>, p: nat)
    requires o <= |s| && p <= |t| && s[o..] == t[p..]
    ensures Elements(s, o) == Elements(t, p)
    decreases |s| - o
  {
    hide Elements;
    NextElement(s, o);
    NextElement(t, p);
    assert |s[o..]| == |s| - o && |t[p..]| == |t| - p;
    if o + 2 <= |s| {
      BytesMoved(s, o, t, p, 0, 1);
      BytesMoved(s, o, t, p, 1, 2);
      var n := s[o + 1] as int;
      if o + 2 + n <= |s| {
        BytesMoved(s, o, t, p, 2, 2 + n);
        ElementsMoved(s, o + 2 + n, t, p + 2 + n);
      }
    }
  }

  lemma NextElement(s: seq<byte>, o: nat)
    requires o <= |s|
    ensures Elements(s, o) ==
            if o + 2 > |s| || o + 2 + s[o + 1] as int > |s| then []
            else [Element(s[o], s[o + 2..o + 2 + s[o + 1] as int])] + Elements(s, o + 2 + s[o + 1] as int)
  {
  }

  lemma BytesMoved(s: seq<byte>, o: nat, t: seq<byte>, p: nat, from: nat, to: nat)
    requires o <= |s| && p <= |t| && s[o..] == t[p..] && from <= to <= |s| - o
    ensures |s| - o == |t| - p && s[o + from..o + to] == t[p + from..p + to] && s[o + to..] == t[p + to..]
    ensures from < to ==> s[o + from] == t[p + from]
  {
    var r := s[o..];
    assert |r| == |s| - o == |t| - p;
    assert s[o + from..o + to] == r[from..to] == t[p + from..p + to];
    assert s[o + to..] == r[to..] == t[p + to..];
    if from < to {
      assert s[o + from] == r[from] == t[p + from];
    }
  }

  /** What a frame with these elements, and perhaps a truncated one, behind its header says. */
  lemma SsidOfFrame(frame: seq<byte>, es: seq<Element>, tail: seq<byte>)
    requires 36 <= |frame| && frame[0] / 4 % 4 == 0 && frame[0] / 16 in {5, 8}
    requires frame[16..22] != [0, 0, 0, 0, 0, 0] && frame[16] % 2 == 0
    requires (forall i {:trigger es[i]} :: 0 <= i < |es| ==> WellFormed(es[i])) && Truncated(tail)
    requires frame[HEADER_SIZE..] == Serialize(es) + tail
    ensures InfoOf(frame) == Some(Info(frame[16..22], SsidOf(es)))
  {
    hide Elements, SsidOf, Serialize, Truncated;
    ElementsInvertSerialize(frame, HEADER_SIZE, es, tail);
    HeaderAccepted(frame);
    hide InfoOf;
  }

  lemma HeaderAccepted(frame: seq<byte>)
    ensures InfoOf(frame).Some? <==>
              && 36 <= |frame| && frame[0] / 4 % 4 == 0 && frame[0] / 16 in {5, 8}
              && frame[16..22] != [0, 0, 0, 0, 0, 0] && frame[16] % 2 == 0
    ensures InfoOf(frame).Some? ==> InfoOf(frame) == Some(Info(frame[16..22], SsidOf(Elements(frame, 36))))
  {
    hide Elements, SsidOf;
    if 36 <= |frame| {
      assert frame[16..22][0] == frame[16];
    }
  }

  /** is_valid_mac */
  method IsValidMac(mac: Mac) returns (valid: bool)
    ensures valid == ValidMac(mac)
    ensures valid <==> mac != [0, 0, 0, 0, 0, 0] && mac[0] % 2 == 0
  {
    var allZero, allFf := true, true;
    for i := 0 to 6
      invariant allZero == forall j {:trigger mac[j]} :: 0 <= j < i ==> mac[j] == 0
      invariant allFf == forall j {:trigger mac[j]} :: 0 <= j < i ==> mac[j] == 0xff
    {
      allZero := allZero && mac[i] == 0x00;
      allFf := allFf && mac[i] == 0xff;
    }
    assert allZero ==> mac == [0, 0, 0, 0, 0, 0];
    assert allFf ==> mac == [0xff, 0xff, 0xff, 0xff, 0xff, 0xff];
    return !allZero && !allFf && mac[0] % 2 == 0;
  }

  /** extract_beacon_info. The walk never looks behind the frame and ends on what is left of it. */
  method ExtractBeaconInfo(frame: array<byte>) returns (info: Option<Info>)
    requires frame.Length < 0x1_0000
    ensures info == InfoOf(frame[..])
    ensures info.Some? <==> frame.Length >= 36 && frame[0] / 4 % 4 == 0 && frame[0] / 16 in {5, 8} && frame[16..22] != [0, 0, 0, 0, 0, 0] && frame[16] % 2 == 0
    ensures info.Some? ==> info.value.mac == frame[16..22]
  {
    if frame.Length < HEADER_SIZE {
      return None;
    }
    var frameType, subtype := frame[0] / 4 % 4, frame[0] / 16;
    if frameType != 0 || (subtype != 8 && subtype != 5) {
      return None;
    }
    var ssid := WalkElements(frame);
    var mac := frame[16..22];
    var valid := IsValidMac(mac);
    assert mac == frame[..][16..22];
    return if valid then Some(Info(mac, ssid)) else None;
  }

  method WalkElements(frame: array<byte>) returns (ssid: seq<byte>)
    requires HEADER_SIZE <= frame.Length < 0x1_0000
    ensures ssid == SsidOf(Elements(frame[..], HEADER_SIZE))
  {
    ghost var s := frame[..];
    ssid := [];
    var offset: uint16 := HEADER_SIZE;
    while offset + 2 <= frame.Length
      invariant offset <= frame.Length
      invariant SsidOf(Elements(s, HEADER_SIZE)) == SsidOf(Elements(s, offset))
      decreases frame.Length - offset
    {
      var id := frame[offset];
      var length := frame[offset + 1];
      var start := offset + 2;
      if start + length as int > frame.Length {
        break;
      }
      assert Elements(s, offset) == [Element(s[offset], s[offset + 2..start + length as int])] + Elements(s, start + length as int);
      if id == 0 {
        var shown := if length < MAX_SSID then length else MAX_SSID;
        ssid := frame[start..start + shown];
        assert ssid == Clip(s[start..start + length as int]);
        return;
      }
      offset := start + length as int;
    }
  }

  /** The pattern occurs somewhere in the frame. */
  predicate Contains(frame: seq<byte>, pattern: seq<byte>) {
    exists i: nat {:trigger OccursAt(frame, i, pattern)} :: i < |frame| && OccursAt(frame, i, pattern)
  }

  predicate OccursAt(frame: seq<byte>, i: nat, pattern: seq<byte>) {
    i + |pattern| <= |frame| && frame[i..i + |pattern|] == pattern
  }

  /** frame_contains_mesh_id */
  method FrameContainsMeshId(frame: array<byte>) returns (found: bool)
    ensures found == Contains(frame[..], MESH_ID)
    ensures found <==> exists i: nat {:trigger frame[i]} :: i + 6 <= frame.Length && frame[i] == 0x47 && frame[i..i + 6] == [0x47, 0x4c, 0x4f, 0x57, 0x20, 0x01]
  {
    forall i: nat {:trigger frame[i]} | i + 6 <= frame.Length
      ensures frame[i..i + 6] == MESH_ID <==> OccursAt(frame[..], i, MESH_ID)
    {
      assert frame[i..i + 6] == frame[..][i..i + 6];
    }
    if frame.Length < |MESH_ID| {
      return false;
    }
    var i := 0;
    while i <= frame.Length - |MESH_ID|
      invariant 0 <= i <= frame.Length - |MESH_ID| + 1
      invariant forall j: nat {:trigger OccursAt(frame[..], j, MESH_ID)} :: j < i ==> !OccursAt(frame[..], j, MESH_ID)
    {
      if frame[i..i + |MESH_ID|] == MESH_ID {
        assert frame[i] == frame[i..i + 6][0];
        assert OccursAt(frame[..], i, MESH_ID);
        return true;
      }
      i := i + 1;
    }
    return false;
  }

  /** A byte string as a big-endian number. */
  function BigEndian(s: seq<byte>): nat {
    if s == [] then 0 else BigEndian(s[..|s| - 1]) * 0x100 + s[|s| - 1]
  }

  function Power256(n: nat): nat {
    if n == 0 then 1 else 0x100 * Power256(n - 1)
  }

  /** Subtracting one with borrow. */
  function Decrement(s: seq<byte>): (r: seq<byte>)
    ensures |r| == |s|
  {
    if s == [] then []
    else if s[|s| - 1] > 0 then s[..|s| - 1] + [s[|s| - 1] - 1]
    else Decrement(s[..|s| - 1]) + [0xff]
  }

  function Increment(s: seq<byte>): (r: seq<byte>)
    ensures |r| == |s|
  {
    if s == [] then []
    else if s[|s| - 1] < 0xff then s[..|s| - 1] + [s[|s| - 1] + 1]
    else Increment(s[..|s| - 1]) + [0]
  }

  lemma {:induction false} BigEndianBounded(s: seq<byte>)
    ensures BigEndian(s) < Power256(|s|)
    decreases |s|
  {
    if s != [] {
      BigEndianBounded(s[..|s| - 1]);
    }
  }

  /** The borrow loop computes v - 1 modulo 256 to the number of bytes. */
  lemma {:induction false} DecrementIsMinusOne(s: seq<byte>)
    ensures BigEndian(Decrement(s)) == if BigEndian(s) == 0 then Power256(|s|) - 1 else BigEndian(s) - 1
    decreases |s|
  {
    if s != [] {
      var init, last := s[..|s| - 1], s[|s| - 1];
      var d := Decrement(s);
      if last > 0 {
        assert d[..|d| - 1] == init;
      } else {
        assert d[..|d| - 1] == Decrement(init);
        DecrementIsMinusOne(init);
      }
    }
  }

  /** And is a bijection on the byte strings of any length. */
  lemma {:induction false} DecrementIncrement(s: seq<byte>)
    ensures Increment(Decrement(s)) == s && Decrement(Increment(s)) == s
    decreases |s|
  {
    if s != [] {
      var init, last := s[..|s| - 1], s[|s| - 1];
      DecrementIncrement(init);
      var d, e := Decrement(s), Increment(s);
      assert d[..|d| - 1] == if last > 0 then init else Decrement(init);
      assert e[..|e| - 1] == if last < 0xff then init else Increment(init);
      assert s == init + [last];
    }
  }

  /** The root address handler only ever decrements the last byte. */
  function LastByteDecrement(s: seq<byte>): seq<byte>
    requires s != []
  {
    if s[|s| - 1] > 0 then s[|s| - 1 := s[|s| - 1] - 1] else s
  }

  /** The two conversions agree exactly on addresses whose last byte is not zero. */
  lemma ConversionsAgree(s: seq<byte>)
    requires s != []
    ensures Decrement(s) == LastByteDecrement(s) <==> s[|s| - 1] != 0
  {
  }

  /** normalize_mesh_ap_bssid_to_sta_mac on a copy of the address, of any length. */
  method NormalizeBssid(a: array<byte>)
    modifies a
    ensures a[..] == Decrement(old(a[..]))
  {
    ghost var s := a[..];
    var i := a.Length;
    assert s[..i] == s && a[i..] == [];
    while i > 0
      invariant 0 <= i <= a.Length
      invariant a[..i] == s[..i]
      invariant Decrement(s) == Decrement(s[..i]) + a[i..]
    {
      i := i - 1;
      assert s[..i + 1][..i] == s[..i];
      assert a[i..] == [a[i]] + a[i + 1..];
      if a[i] > 0 {
        a[i] := a[i] - 1;
        assert a[..] == s[..i] + [a[i]] + a[i + 1..];
        return;
      }
      a[i] := 0xff;
      assert a[i..] == [0xff] + a[i + 1..];
    }
    assert a[..] == a[0..];
  }

  predicate EspressifOui(mac: Mac) {
    mac[..3] in ESPRESSIF_OUIS
  }

  /** The address under which a frame is listed, if at all. */
  function NeighborOf(frame: seq<byte>, routerSsid: seq<byte>): Option<Mac> {
    var info := InfoOf(frame);
    if info.None? || (routerSsid != [] && info.value.ssid == routerSsid) then None
    else if !Contains(frame, MESH_ID) && !EspressifOui(info.value.mac) then None
    else if !ValidMac(Decrement(info.value.mac)) then None
    else Some(Decrement(info.value.mac))
  }

  lemma NeighborIs(frame: seq<byte>, routerSsid: seq<byte>)
    ensures var info := InfoOf(frame);
            NeighborOf(frame, routerSsid).Some? <==>
              && info.Some? && (routerSsid == [] || info.value.ssid != routerSsid)
              && (Contains(frame, [0x47, 0x4c, 0x4f, 0x57, 0x20, 0x01]) || frame[16..19] in ESPRESSIF_OUIS)
              && Decrement(frame[16..22]) != [0, 0, 0, 0, 0, 0] && Decrement(frame[16..22])[0] % 2 == 0
    ensures NeighborOf(frame, routerSsid).Some? ==> NeighborOf(frame, routerSsid).value == Decrement(frame[16..22])
  {
    HeaderAccepted(frame);
    if InfoOf(frame).Some? {
      assert frame[16..22][..3] == frame[16..19];
    }
  }

  /** process_beacon_frame, with the time of the last frame that counted. */
  method ProcessBeaconFrame(table: NeighborTable, frame: array<byte>, rssi: int8, now: uint32, routerSsid: seq<byte>, lastScan: uint32)
    returns (scan: uint32)
    requires table.Valid() && frame.Length < 0x1_0000
    modifies table.slots
    ensures table.Valid()
    ensures var n := NeighborOf(frame[..], routerSsid);
            && table.slots[..] == (if n.Some? then Updated(old(table.slots[..]), table.self, n.value, rssi, now) else old(table.slots[..]))
            && scan == if n.Some? then now else lastScan
    // a frame of a valid sender that is not the router's, and either shows the mesh identifier or comes from a known maker
    ensures var frame, info := frame[..], InfoOf(frame[..]);
            NeighborOf(frame, routerSsid).Some? <==>
              && info.Some? && (routerSsid == [] || info.value.ssid != routerSsid)
              && (Contains(frame, [0x47, 0x4c, 0x4f, 0x57, 0x20, 0x01]) || frame[16..19] in ESPRESSIF_OUIS)
              && Decrement(frame[16..22]) != [0, 0, 0, 0, 0, 0] && Decrement(frame[16..22])[0] % 2 == 0
    ensures NeighborOf(frame[..], routerSsid).Some? ==> NeighborOf(frame[..], routerSsid).value == Decrement(frame[16..22])
  {
    NeighborIs(frame[..], routerSsid);
    scan := lastScan;
    hide NeighborOf, InfoOf, Updated, Decrement, Contains, EspressifOui, TableInv, Provenance;
    var info := ExtractBeaconInfo(frame);
    if info.None? || (routerSsid != [] && info.value.ssid == routerSsid) {
      return;
    }
    var isMesh := FrameContainsMeshId(frame);
    if !isMesh && !EspressifOui(info.value.mac) {
      return;
    }
    var sta := new byte[6](i requires 0 <= i < 6 => info.value.mac[i]);
    assert sta[..] == info.value.mac;
    NormalizeBssid(sta);
    var mac := sta[..];
    var valid := IsValidMac(mac);
    if !valid {
      return;
    }
    table.Update(mac, rssi, now);
    scan := now;
  }
}
