/** Local status messages: their bytes and checksum, and what receiving one does to the neighbor table. */
module LocalStatus {
  import opened Bytes
  import opened Neighbors

  const PROTOCOL_VERSION := 1
  const MSG_TYPE_STATE_UPDATE := 1
  const STATUS_SIZE := 32      // sizeof(local_status_message_t)
  const CHECKSUM_OFFSET := 28
  const DEFAULT_RSSI: int8 := -50

  function Le16(n: nat): seq<byte> {
    [n % 0x100, n / 0x100 % 0x100]
  }

  function Le32(n: nat): seq<byte> {
    Le16(n % 0x1_0000) + Le16(n / 0x1_0000)
  }

  function ReadLe16(s: seq<byte>, i: nat): uint16
    requires i + 2 <= |s|
  {
    s[i] + s[i + 1] as int * 0x100
  }

  function ReadLe32(s: seq<byte>, i: nat): uint32
    requires i + 4 <= |s|
  {
    ReadLe16(s, i) + ReadLe16(s, i + 2) as int * 0x1_0000
  }

  function Sum(s: seq<byte>): nat {
    if s == [] then 0 else Sum(s[..|s| - 1]) + s[|s| - 1]
  }

  /** The sum of all bytes, in 16 bits. */
  function Checksum(s: seq<byte>): uint16 {
    Sum(s) % 0x1_0000
  }

  /** calculate_local_status_checksum and its siblings: a 16-bit running sum. */
  method CalculateChecksum(data: seq<byte>) returns (checksum: uint16)
    ensures checksum == Checksum(data) && (data == [] ==> checksum == 0)
  {
    checksum := 0;
    for i := 0 to |data|
      invariant checksum == Checksum(data[..i])
    {
      assert data[..i + 1][..i] == data[..i];
      AddWraps(Sum(data[..i]), data[i]);
      checksum := (checksum + data[i]) % 0x1_0000;
    }
    assert data[..|data|] == data;
  }

  lemma AddWraps(n: nat, b: byte)
    ensures (n % 0x1_0000 + b) % 0x1_0000 == (n + b) % 0x1_0000
  {
  }

  lemma {:induction false} SumUpdate(s: seq<byte>, i: nat, b: byte)
    requires i < |s|
    ensures Sum(s[i := b]) == Sum(s) - s[i] + b
    decreases |s|
  {
    var t := s[..|s| - 1];
    if i == |s| - 1 {
      assert s[i := b][..|s| - 1] == t;
    } else {
      SumUpdate(t, i, b);
      assert s[i := b][..|s| - 1] == t[i := b];
    }
  }

  lemma AddShifts(n: nat, d: int)
    requires -0x1_0000 < d < 0x1_0000 && n + d >= 0
    ensures (n + d) % 0x1_0000 - n % 0x1_0000 in {d, d - 0x1_0000, d + 0x1_0000}
  {
  }

  /** A change of any single byte is noticed. */
  lemma ChecksumCatchesOneByte(s: seq<byte>, i: nat, b: byte)
    requires i < |s| && b != s[i]
    ensures Checksum(s[i := b]) != Checksum(s)
  {
    SumUpdate(s, i, b);
    AddShifts(Sum(s), b - s[i]);
  }

  function StatusOf(data: seq<byte>): Status
    requires |data| == STATUS_SIZE
  {
    Status(data[8], data[9], ReadLe16(data, 10), data[12], ReadLe32(data, 16), ReadLe32(data, 20), ReadLe32(data, 24))
  }

  function MacOf(data: seq<byte>): Mac
    requires |data| == STATUS_SIZE
  {
    data[2..8]
  }

  /** A well-formed message of another node. */
  predicate Accepted(data: seq<byte>, self: Mac) {
    && |data| == STATUS_SIZE && data[0] == PROTOCOL_VERSION && data[1] == MSG_TYPE_STATE_UPDATE
    && ReadLe16(data, CHECKSUM_OFFSET) == Checksum(data[..CHECKSUM_OFFSET])
    && MacOf(data) != self
  }

  function Stored(s: seq<Slot>, mac: Mac, status: Status, now: uint32): (r: seq<Slot>)
    ensures |r| == |s|
  {
    var i := IndexOf(s, mac);
    if i < |s| then s[i := s[i].(status := status, hasState := true, lastSeen := now)] else s
  }

  /** The fields in the bytes of a message, the lowest byte first. */
  lemma StatusBytes(data: seq<byte>)
    requires |data| == STATUS_SIZE
    ensures var x := StatusOf(data);
            && x.state == data[8] && x.val == data[9] && x.presence == data[12]
            && x.temperature == data[10] + data[11] as int * 0x100
            && x.distance == data[16] + data[17] as int * 0x100 + data[18] as int * 0x1_0000 + data[19] as int * 0x100_0000
            && x.timestamp == data[20] + data[21] as int * 0x100 + data[22] as int * 0x1_0000 + data[23] as int * 0x100_0000
            && x.vseq == data[24] + data[25] as int * 0x100 + data[26] as int * 0x1_0000 + data[27] as int * 0x100_0000
  {
  }

  /** The table after an accepted status: only the entry of its sender shows it, and no other is touched but one replaced. */
  lemma StoredShows(s: seq<Slot>, self: Mac, last: map<Mac, Status>, mac: Mac, status: Status, rssi: int8, seen: uint32, now: uint32, i: nat)
    requires s != [] && i < |s| && TableInv(s, self) && Provenance(s, last)
    ensures var x := Stored(Updated(s, self, mac, rssi, seen), mac, status, now)[i];
            && (x.active && x.mac == mac ==>
                  x.hasState && x.status == status && x.lastSeen == now && (rssi >= -80 ==> x.rssi == rssi))
            && (!(x.active && x.mac == mac) ==> x == s[i])
            && (s[i].active && s[i].mac == mac ==> x.active && x.mac == mac)
  {
    UpdateRefreshes(s, self, mac, rssi, seen, i);
    var r := Updated(s, self, mac, rssi, seen);
    UpdateKeeps(s, self, mac, rssi, seen, last);
    if r[i].active && r[i].mac == mac {
      Found(r, mac, i);
    }
    hide Updated;
  }

  lemma ReceivedShows(s: seq<Slot>, self: Mac, last: map<Mac, Status>, mac: Mac, status: Status, rssi: int8, seen: uint32, now: uint32)
    requires s != [] && TableInv(s, self) && Provenance(s, last)
    ensures var r := Stored(Updated(s, self, mac, rssi, seen), mac, status, now);
            forall i {:trigger r[i]} :: 0 <= i < |s| ==>
              if r[i].active && r[i].mac == mac
              then r[i].hasState && r[i].status == status && r[i].lastSeen == now && (rssi >= -80 ==> r[i].rssi == rssi)
              else r[i] == s[i] && !(s[i].active && s[i].mac == mac)
  {
    hide Updated, Stored;
    forall i | 0 <= i < |s|
      ensures var x := Stored(Updated(s, self, mac, rssi, seen), mac, status, now)[i];
              if x.active && x.mac == mac
              then x.hasState && x.status == status && x.lastSeen == now && (rssi >= -80 ==> x.rssi == rssi)
              else x == s[i] && !(s[i].active && s[i].mac == mac)
    {
      StoredShows(s, self, last, mac, status, rssi, seen, now, i);
    }
  }

  /** local_status_recv_callback; without receive information the strength defaults. */
  method ReceiveStatus(table: NeighborTable, data: seq<byte>, rssi: Option<int8>, seen: uint32, now: uint32)
    requires table.Valid()
    modifies table`last, table.slots
    ensures table.Valid()
    // a message of another version or type, of another length, with a wrong checksum, or of this node changes nothing
    ensures Accepted(data, table.self) <==>
              && |data| == 32 && data[0] == 1 && data[1] == 1
              && data[28] + data[29] as int * 0x100 == Sum(data[..28]) % 0x1_0000
              && data[2..8] != table.self
    ensures !Accepted(data, table.self) ==> table.slots[..] == old(table.slots[..]) && table.last == old(table.last)
    // any other is the last status of its sender, and the sender's entry, if it has one, shows it as heard now
    ensures Accepted(data, table.self) ==>
              && data[2..8] in table.last
              && var x := table.last[data[2..8]];
              && x.state == data[8] && x.val == data[9] && x.presence == data[12]
              && x.temperature == data[10] + data[11] as int * 0x100
              && x.distance == data[16] + data[17] as int * 0x100 + data[18] as int * 0x1_0000 + data[19] as int * 0x100_0000
              && x.timestamp == data[20] + data[21] as int * 0x100 + data[22] as int * 0x1_0000 + data[23] as int * 0x100_0000
              && x.vseq == data[24] + data[25] as int * 0x100 + data[26] as int * 0x1_0000 + data[27] as int * 0x100_0000
    ensures Accepted(data, table.self) ==>
              forall i {:trigger table.slots[i]} :: 0 <= i < table.slots.Length ==>
                if table.slots[i].active && table.slots[i].mac == data[2..8] then
                  && table.slots[i].hasState && table.slots[i].status == table.last[data[2..8]] && table.slots[i].lastSeen == now
                  && var strength := if rssi.Some? then rssi.value else -50;
                     strength >= -80 ==> table.slots[i].rssi == strength
                else
                  && table.slots[i] == old(table.slots[..])[i] && !(old(table.slots[..])[i].active && old(table.slots[..])[i].mac == data[2..8])
    ensures Accepted(data, table.self) ==>
              && table.last == old(table.last)[MacOf(data) := StatusOf(data)]
              && table.slots[..] == Stored(Updated(old(table.slots[..]), table.self, MacOf(data), if rssi.Some? then rssi.value else DEFAULT_RSSI, seen),
                                           MacOf(data), StatusOf(data), now)
  {
    if |data| != STATUS_SIZE || data[0] != PROTOCOL_VERSION || data[1] != MSG_TYPE_STATE_UPDATE {
      return;
    }
    StatusBytes(data);
    ReceivedShows(table.slots[..], table.self, table.last, MacOf(data), StatusOf(data), if rssi.Some? then rssi.value else DEFAULT_RSSI, seen, now);
    var checksum := CalculateChecksum(data[..CHECKSUM_OFFSET]);
    if checksum != ReadLe16(data, CHECKSUM_OFFSET) {
      return;
    }
    var mac := data[2..8];
    if mac == table.self {
      return;
    }
    StoreStatus(table, mac, StatusOf(data), if rssi.Some? then rssi.value else DEFAULT_RSSI, seen, now);
  }

  method StoreStatus(table: NeighborTable, mac: Mac, status: Status, rssi: int8, seen: uint32, now: uint32)
    requires table.Valid()
    modifies table`last, table.slots
    ensures table.Valid() && table.last == old(table.last)[mac := status]
    ensures table.slots[..] == Stored(Updated(old(table.slots[..]), table.self, mac, rssi, seen), mac, status, now)
  {
    hide Updated;
    table.Update(mac, rssi, seen);
    StatusKeeps(table.slots[..], table.self, mac, status, now, table.last);
    hide TableInv, Provenance, IndexOf;
    var i := table.Find(mac);
    if i < table.slots.Length {
      table.slots[i] := table.slots[i].(status := status, hasState := true, lastSeen := now);
    }
    table.last := table.last[mac := status];
  }

  /** The message send_local_status_to_neighbors builds. */
  function StatusMessage(mac: Mac, status: Status): (data: seq<byte>)
    ensures |data| == STATUS_SIZE
  {
    var body := StatusBody(mac, status);
    body + Le16(Checksum(body)) + [0, 0]
  }

  function StatusBody(mac: Mac, status: Status): (body: seq<byte>)
    ensures |body| == CHECKSUM_OFFSET
  {
    [PROTOCOL_VERSION, MSG_TYPE_STATE_UPDATE] + mac + [status.state, status.val] + Le16(status.temperature)
    + [status.presence, 0, 0, 0] + Le32(status.distance) + Le32(status.timestamp) + Le32(status.vseq)
  }

  lemma ReadBackLe16(s: seq<byte>, i: nat, n: uint16)
    requires i + 2 <= |s| && s[i] == Le16(n)[0] && s[i + 1] == Le16(n)[1]
    ensures ReadLe16(s, i) == n
  {
  }

  lemma ReadBackLe32(s: seq<byte>, i: nat, n: uint32)
    requires i + 4 <= |s| && s[i..i + 4] == Le32(n)
    ensures ReadLe32(s, i) == n
  {
    var e := s[i..i + 4];
    assert s[i] == e[0] && s[i + 1] == e[1] && s[i + 2] == e[2] && s[i + 3] == e[3];
    ReadBackLe16(s, i, n % 0x1_0000);
    ReadBackLe16(s, i + 2, n / 0x1_0000);
  }

  /** What one node sends every other node accepts, with the same address and fields. */
  lemma SentIsAccepted(mac: Mac, status: Status, self: Mac)
    requires mac != self
    ensures var data := StatusMessage(mac, status);
            && Accepted(data, self) && MacOf(data) == mac && StatusOf(data) == status
            && data[13..16] == [0, 0, 0] && data[30..] == [0, 0]
  {
    var data, body := StatusMessage(mac, status), StatusBody(mac, status);
    assert data[..CHECKSUM_OFFSET] == body;
    hide Le32, Checksum;
    assert data[2..8] == mac;
    ReadBackLe16(data, 10, status.temperature);
    ReadBackLe16(data, CHECKSUM_OFFSET, Checksum(body));
    hide Le16;
    assert data[16..20] == Le32(status.distance) && data[20..24] == Le32(status.timestamp) && data[24..28] == Le32(status.vseq);
    ReadBackLe32(data, 16, status.distance);
    ReadBackLe32(data, 20, status.timestamp);
    ReadBackLe32(data, 24, status.vseq);
    hide ReadLe32, ReadLe16;
  }
}
