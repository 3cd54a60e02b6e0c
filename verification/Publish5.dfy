/** The MQTT 5.0 PUBLISH builder: properties are appended behind a one-byte length and moved up if it takes more. */
module Publish5 {
  import opened Bytes
  import opened Connection
  import opened Properties5
  import P311 = Publish311
  import VarLen

  /** Variable header and payload of section 3.3 of MQTT 5.0. */
  function PublishBody(topic: seq<byte>, qos: nat, id: uint16, p: Config, payload: seq<byte>): (body: seq<byte>)
    ensures |body| == BodyStart(topic, qos, p) - MAX_FIXED_HEADER_SIZE + |payload|
  {
    Head(topic, qos, id) + VarLen.Encode(|EncodeAll(PropertyList(p))|) + EncodeAll(PropertyList(p)) + payload
  }

  function Head(topic: seq<byte>, qos: nat, id: uint16): (head: seq<byte>)
    ensures |head| == HeadEnd(topic, qos) - MAX_FIXED_HEADER_SIZE
  {
    Str(topic) + if qos > 0 then Be16(id) else []
  }

  function HeadEnd(topic: seq<byte>, qos: nat): nat {
    MAX_FIXED_HEADER_SIZE + 2 + |topic| + if qos > 0 then 2 else 0
  }

  /** Where the payload starts in the connection buffer. */
  function BodyStart(topic: seq<byte>, qos: nat, p: Config): (start: nat)
    ensures start > HeadEnd(topic, qos)
  {
    HeadEnd(topic, qos) + |VarLen.Encode(|EncodeAll(PropertyList(p))|)| + |EncodeAll(PropertyList(p))|
  }

  function PublishPacket(topic: seq<byte>, dup: nat, qos: nat, retain: nat, id: uint16, p: Config, payload: seq<byte>): seq<byte> {
    Packet(FirstByte(TYPE_PUBLISH, dup, qos, retain), PublishBody(topic, qos, id, p, payload))
  }

  /** A length field of `width` bytes, most significant first. */
  function LengthField(width: nat, n: nat): (f: seq<byte>)
    requires width == 1 || width == 2 || width == 4
    ensures |f| == width
  {
    if width == 1 then [n % 0x100] else if width == 2 then Be16(n) else Be32(n)
  }

  /** Type byte unless zero, length or value field, data unless null. */
  function Field(propertyType: byte, width: nat, data: Option<seq<byte>>, n: nat): (f: seq<byte>)
    requires width == 1 || width == 2 || width == 4
    ensures |f| > 0
  {
    (if propertyType != 0 then [propertyType] else []) + LengthField(width, n) + (if data.Some? then data.value else [])
  }

  /**
   append_property: type byte unless zero, length or value field, data unless null. The message may
   already be one byte past the buffer, when the property length byte did not fit.
   */
  method AppendProperty(c: Connection, propertyType: byte, width: nat, data: Option<seq<byte>>, n: nat) returns (r: int)
    requires c.Valid() && MAX_FIXED_HEADER_SIZE <= c.length <= c.buffer.Length + 1
    requires width == 1 || width == 2 || width == 4
    requires data.Some? ==> |data.value| == n
    modifies c`length, c.buffer
    ensures c.Valid() && MAX_FIXED_HEADER_SIZE <= c.length
    ensures var field := Field(propertyType, width, data, n);
            && (r == -1 <==> old(c.length) + |field| > c.buffer.Length)
            && (r == -1 ==> c.length == old(c.length))
            && (r != -1 ==> c.length == old(c.length) + |field| <= c.buffer.Length)
            && (r != -1 ==> c.Body() == old(c.Body()) + field)
  {
    if c.length + width + (if data.Some? then n else 0) + (if propertyType != 0 then 1 else 0) > c.buffer.Length {
      return -1;
    }
    var field := Field(propertyType, width, data, n);
    c.Append(field);
    return |field|;
  }

  /** a[from..from + n] copied `shift` places to the right, last byte first. */
  method ShiftRight(a: array<byte>, from: nat, n: nat, shift: nat)
    requires from + n + shift <= a.Length
    modifies a
    ensures a[..] == Splice(old(a[..]), from + shift, old(a[..])[from..from + n])
  {
    hide Splice;
    ghost var b := a[..];
    var offset := from + n - 1;
    for i := 0 to n
      invariant offset == from + n - 1 - i
      invariant forall k :: 0 <= k <= offset + shift || from + n + shift <= k < a.Length ==> a[k] == b[k]
      invariant forall k :: offset < k < from + n ==> a[k + shift] == b[k]
    {
      a[offset + shift] := a[offset];
      offset := offset - 1;
    }
    Shifted(b, a[..], from, n, shift);
  }

  lemma Shifted(b: seq<byte>, r: seq<byte>, from: nat, n: nat, shift: nat)
    requires from + n + shift <= |b| == |r|
    requires forall k :: 0 <= k < from + shift || from + n + shift <= k < |r| ==> r[k] == b[k]
    requires forall k :: from <= k < from + n ==> r[k + shift] == b[k]
    ensures r == Splice(b, from + shift, b[from..from + n])
  {
    forall k {:trigger r[k]} | from + shift <= k < from + n + shift
      ensures r[k] == b[from..from + n][k - from - shift]
    {
      assert r[k - shift + shift] == b[k - shift];
    }
  }

  lemma SpliceOwn(b: seq<byte>, at: nat, n: nat)
    requires at + n <= |b|
    ensures Splice(b, at, b[at..at + n]) == b
  {
  }

  /** Moving the properties up and writing their length in the gap, on the buffer as a sequence. */
  lemma LengthInGap(b: seq<byte>, start: nat, at: nat, n: nat, e: seq<byte>)
    requires start <= at && e != [] && at + |e| + n <= |b|
    ensures var moved := Splice(b, at + |e|, b[at + 1..at + 1 + n]);
            Splice(moved, at, e)[start..at + |e| + n] == b[start..at] + e + b[at + 1..at + 1 + n]
  {
    var props := b[at + 1..at + 1 + n];
    var moved := Splice(b, at + |e|, props);
    assert moved[at + |e|..][..n] == props;
    assert moved[..at] == b[..at];
    assert Splice(moved, at, e)[at + |e|..at + |e| + n] == props;
    assert Splice(moved, at, e)[start..at + |e|] == b[start..at] + e;
  }

  /** update_property_len_value: the length byte kept free at `at` becomes the encoded length of the n bytes behind it. */
  method UpdatePropertyLength(c: Connection, n: nat, at: nat) returns (r: int)
    requires c.Valid() && MAX_FIXED_HEADER_SIZE <= at && c.length == at + 1 + n
    requires c.length <= c.buffer.Length || n == 0
    modifies c`length, c.buffer
    ensures c.Valid() && MAX_FIXED_HEADER_SIZE <= c.length
    ensures r == -1 <==> at + |VarLen.Encode(n)| + n > c.buffer.Length
    ensures r != -1 ==>
              && c.length == at + |VarLen.Encode(n)| + n <= c.buffer.Length
              && c.Body() == old(c.buffer[..])[MAX_FIXED_HEADER_SIZE..at] + VarLen.Encode(n) + old(c.buffer[..])[at + 1..at + 1 + n]
  {
    var encodedLens := VarLen.Generate(n);
    var offset := |encodedLens| - 1;
    c.length := c.length + offset;
    if c.length > c.buffer.Length {
      return -1;
    }
    OpenGap(c.buffer, at, n, encodedLens, MAX_FIXED_HEADER_SIZE);
    return offset;
  }

  /** Moves a[at + 1..at + 1 + n] up to make room for the bytes e at `at`. */
  method OpenGap(a: array<byte>, at: nat, n: nat, e: seq<byte>, ghost start: nat)
    requires start <= at && e != [] && at + |e| + n <= a.Length
    modifies a
    ensures a[..][start..at + |e| + n] == old(a[..])[start..at] + e + old(a[..])[at + 1..at + 1 + n]
  {
    hide Splice;
    ghost var b := a[..];
    LengthInGap(b, start, at, n, e);
    if |e| > 1 {
      ShiftRight(a, at + 1, n, |e| - 1);
    } else {
      SpliceOwn(b, at + 1, n);
    }
    Copy(a, at, e);
  }

  /** The message holds `block` behind the bytes `body`, which end at `base`. */
  ghost predicate Holds(c: Connection, base: nat, body: seq<byte>, block: seq<byte>)
    reads c, c.buffer
    ensures Holds(c, base, body, block) ==> c.Valid() && MAX_FIXED_HEADER_SIZE <= c.length == base + |block|
    ensures Holds(c, base, body, block) && block != [] ==> c.length <= c.buffer.Length
  {
    && c.Valid() && MAX_FIXED_HEADER_SIZE <= base <= c.buffer.Length + 1
    && c.length == base + |block|
    && (block != [] ==> c.length <= c.buffer.Length)
    && (c.length <= c.buffer.Length ==> c.Body() == body + block)
  }

  /** One optional property: nothing when absent, an error when it does not fit. */
  method AppendIf(c: Connection, present: bool, propertyType: byte, width: nat, data: Option<seq<byte>>, n: nat,
                  ghost base: nat, ghost body: seq<byte>, ghost block: seq<byte>) returns (ok: bool)
    requires Holds(c, base, body, block)
    requires width == 1 || width == 2 || width == 4
    requires data.Some? ==> |data.value| == n
    modifies c`length, c.buffer
    ensures c.Valid() && MAX_FIXED_HEADER_SIZE <= c.length
    ensures ok ==> Holds(c, base, body, block + if present then Field(propertyType, width, data, n) else [])
    ensures !ok <==> present && base + |block| + |Field(propertyType, width, data, n)| > c.buffer.Length
  {
    ok := true;
    if present {
      hide Field;
      var r := AppendProperty(c, propertyType, width, data, n);
      ok := r != -1;
      assert ok ==> body + block + Field(propertyType, width, data, n) == body + (block + Field(propertyType, width, data, n));
    } else {
      assert block + [] == block;
    }
  }

  function If(present: bool, field: seq<byte>): seq<byte> {
    if present then field else []
  }

  function UserBytes(users: seq<(seq<byte>, seq<byte>)>): seq<byte> {
    EncodeAll(UserList(users))
  }

  lemma NextUser(users: seq<(seq<byte>, seq<byte>)>)
    requires users != []
    ensures UserBytes(users) == Field(USER_PROPERTY, 2, Some(users[0].0), |users[0].0|) + Field(0, 2, Some(users[0].1), |users[0].1|)
                                + UserBytes(users[1..])
  {
    UserListHead(users);
    assert Encode(UserList(users)[0]) == Field(USER_PROPERTY, 2, Some(users[0].0), |users[0].0|) + Field(0, 2, Some(users[0].1), |users[0].1|);
  }

  /** Every user property: key with its type byte, then the bare value. */
  method AppendUsers(c: Connection, users: seq<(seq<byte>, seq<byte>)>, ghost base: nat, ghost body: seq<byte>, ghost block: seq<byte>)
    returns (ok: bool)
    requires Holds(c, base, body, block)
    modifies c`length, c.buffer
    ensures c.Valid() && MAX_FIXED_HEADER_SIZE <= c.length
    ensures ok ==> Holds(c, base, body, block + UserBytes(users))
    ensures !ok <==> users != [] && base + |block| + |UserBytes(users)| > c.buffer.Length
  {
    hide Holds, Field, UserBytes;
    var i := 0;
    ghost var done := block;
    assert users[0..] == users;
    while i < |users|
      invariant 0 <= i <= |users| && Holds(c, base, body, done)
      invariant done + UserBytes(users[i..]) == block + UserBytes(users)
      invariant i > 0 ==> base + |done| <= c.buffer.Length
    {
      var key, val := users[i].0, users[i].1;
      NextUser(users[i..]);
      assert users[i..][1..] == users[i + 1..];
      ghost var k, v := Field(USER_PROPERTY, 2, Some(key), |key|), Field(0, 2, Some(val), |val|);
      ok := AppendIf(c, true, USER_PROPERTY, 2, Some(key), |key|, base, body, done);
      if !ok { return; }
      ok := AppendIf(c, true, 0, 2, Some(val), |val|, base, body, done + k);
      if !ok { return; }
      assert done + (k + v + UserBytes(users[i + 1..])) == done + k + v + UserBytes(users[i + 1..]);
      done := done + k + v;
      i := i + 1;
    }
    NoUsers(users[i..]);
    assert done + [] == done;
    ok := true;
  }

  lemma NoUsers(users: seq<(seq<byte>, seq<byte>)>)
    ensures users == [] ==> UserBytes(users) == []
  {
  }

  /** The encoded properties as the builder writes them. */
  function ConfigBytes(p: Config): seq<byte> {
    FirstFive(p) + UserBytes(p.users) +
    If(p.contentType.Some?, Field(CONTENT_TYPE, 2, p.contentType, |OrEmpty(p.contentType)|))
  }

  function FirstFive(p: Config): seq<byte> {
    If(p.payloadFormat, Field(PAYLOAD_FORMAT_INDICATOR, 1, None, 1)) +
    If(p.expiry != 0, Field(MESSAGE_EXPIRY_INTERVAL, 4, None, p.expiry)) +
    If(p.alias != 0, Field(TOPIC_ALIAS, 2, None, p.alias)) +
    If(p.responseTopic.Some?, Field(RESPONSE_TOPIC, 2, p.responseTopic, |OrEmpty(p.responseTopic)|)) +
    If(p.correlation != [], Field(CORRELATION_DATA, 2, Some(p.correlation), |p.correlation|))
  }

  /** The first five optional properties. */
  method AppendFirstFive(c: Connection, p: Config, ghost base: nat, ghost body: seq<byte>) returns (ok: bool)
    requires Holds(c, base, body, [])
    modifies c`length, c.buffer
    ensures c.Valid() && MAX_FIXED_HEADER_SIZE <= c.length
    ensures ok ==> Holds(c, base, body, FirstFive(p))
    ensures !ok ==> base + |FirstFive(p)| > c.buffer.Length && FirstFive(p) != []
  {
    hide Holds, Field;
    ghost var a := If(p.payloadFormat, Field(PAYLOAD_FORMAT_INDICATOR, 1, None, 1));
    ghost var b := a + If(p.expiry != 0, Field(MESSAGE_EXPIRY_INTERVAL, 4, None, p.expiry));
    ghost var d := b + If(p.alias != 0, Field(TOPIC_ALIAS, 2, None, p.alias));
    ghost var e := d + If(p.responseTopic.Some?, Field(RESPONSE_TOPIC, 2, p.responseTopic, |OrEmpty(p.responseTopic)|));
    assert [] + a == a;
    ok := AppendIf(c, p.payloadFormat, PAYLOAD_FORMAT_INDICATOR, 1, None, 1, base, body, []);
    if !ok { return; }
    ok := AppendIf(c, p.expiry != 0, MESSAGE_EXPIRY_INTERVAL, 4, None, p.expiry, base, body, a);
    if !ok { return; }
    ok := AppendIf(c, p.alias != 0, TOPIC_ALIAS, 2, None, p.alias, base, body, b);
    if !ok { return; }
    ok := AppendIf(c, p.responseTopic.Some?, RESPONSE_TOPIC, 2, p.responseTopic, |OrEmpty(p.responseTopic)|, base, body, d);
    if !ok { return; }
    ok := AppendIf(c, p.correlation != [], CORRELATION_DATA, 2, Some(p.correlation), |p.correlation|, base, body, e);
  }

  /** All properties; fails as soon as one does not fit. */
  method AppendProperties(c: Connection, p: Config, ghost base: nat, ghost body: seq<byte>) returns (ok: bool)
    requires Holds(c, base, body, [])
    modifies c`length, c.buffer
    ensures c.Valid() && MAX_FIXED_HEADER_SIZE <= c.length
    ensures ok ==> Holds(c, base, body, ConfigBytes(p))
    ensures !ok ==> base + |ConfigBytes(p)| > c.buffer.Length && ConfigBytes(p) != []
  {
    hide Holds, Field, UserBytes, FirstFive;
    ok := AppendFirstFive(c, p, base, body);
    if !ok { return; }
    ok := AppendUsers(c, p.users, base, body, FirstFive(p));
    if !ok {
      NoBytesNoUsers(p.users);
      return;
    }
    ok := AppendIf(c, p.contentType.Some?, CONTENT_TYPE, 2, p.contentType, |OrEmpty(p.contentType)|, base, body, FirstFive(p) + UserBytes(p.users));
  }

  lemma NoBytesNoUsers(users: seq<(seq<byte>, seq<byte>)>)
    requires users != []
    ensures UserBytes(users) != []
  {
  }

  lemma EncodeThen(ps: seq<Property>, present: bool, p: Property, field: seq<byte>)
    requires present ==> Encode(p) == field
    ensures EncodeAll(ps + Maybe(present, p)) == EncodeAll(ps) + If(present, field)
  {
    EncodeConcat(ps, Maybe(present, p));
    assert [p][1..] == [];
  }

  lemma NumberFields(expiry: uint32, alias: uint16)
    ensures Encode(PayloadFormat(1)) == Field(PAYLOAD_FORMAT_INDICATOR, 1, None, 1)
    ensures Encode(MessageExpiry(expiry)) == Field(MESSAGE_EXPIRY_INTERVAL, 4, None, expiry)
    ensures Encode(TopicAlias(alias)) == Field(TOPIC_ALIAS, 2, None, alias)
  {
  }

  lemma StringFields(s: seq<byte>)
    ensures Encode(ResponseTopic(s)) == Field(RESPONSE_TOPIC, 2, Some(s), |s|)
    ensures Encode(Correlation(s)) == Field(CORRELATION_DATA, 2, Some(s), |s|)
    ensures Encode(ContentType(s)) == Field(CONTENT_TYPE, 2, Some(s), |s|)
  {
  }

  lemma FirstFiveAreProperties(p: Config)
    ensures FirstFive(p) == EncodeAll(Maybe(p.payloadFormat, PayloadFormat(1)) +
                                      Maybe(p.expiry != 0, MessageExpiry(p.expiry)) +
                                      Maybe(p.alias != 0, TopicAlias(p.alias)) +
                                      Maybe(p.responseTopic.Some?, ResponseTopic(OrEmpty(p.responseTopic))) +
                                      Maybe(p.correlation != [], Correlation(p.correlation)))
  {
    hide Field, Encode, If, Maybe;
    NumberFields(p.expiry, p.alias);
    StringFields(OrEmpty(p.responseTopic));
    StringFields(p.correlation);
    var a := Maybe(p.payloadFormat, PayloadFormat(1));
    var b := a + Maybe(p.expiry != 0, MessageExpiry(p.expiry));
    var d := b + Maybe(p.alias != 0, TopicAlias(p.alias));
    var e := d + Maybe(p.responseTopic.Some?, ResponseTopic(OrEmpty(p.responseTopic)));
    var f := If(p.payloadFormat, Field(PAYLOAD_FORMAT_INDICATOR, 1, None, 1));
    assert [] + a == a && EncodeAll([]) + f == f;
    EncodeThen([], p.payloadFormat, PayloadFormat(1), Field(PAYLOAD_FORMAT_INDICATOR, 1, None, 1));
    EncodeThen(a, p.expiry != 0, MessageExpiry(p.expiry), Field(MESSAGE_EXPIRY_INTERVAL, 4, None, p.expiry));
    EncodeThen(b, p.alias != 0, TopicAlias(p.alias), Field(TOPIC_ALIAS, 2, None, p.alias));
    EncodeThen(d, p.responseTopic.Some?, ResponseTopic(OrEmpty(p.responseTopic)), Field(RESPONSE_TOPIC, 2, p.responseTopic, |OrEmpty(p.responseTopic)|));
    EncodeThen(e, p.correlation != [], Correlation(p.correlation), Field(CORRELATION_DATA, 2, Some(p.correlation), |p.correlation|));
  }

  /** The bytes the builder writes are the encoded property list. */
  lemma ConfigBytesAreProperties(p: Config)
    ensures ConfigBytes(p) == EncodeAll(PropertyList(p))
  {
    FirstFiveAreProperties(p);
    hide FirstFive, Field, Encode, If, Maybe, EncodeAll, UserList;
    StringFields(OrEmpty(p.contentType));
    var f := Maybe(p.payloadFormat, PayloadFormat(1)) +
      Maybe(p.expiry != 0, MessageExpiry(p.expiry)) +
      Maybe(p.alias != 0, TopicAlias(p.alias)) +
      Maybe(p.responseTopic.Some?, ResponseTopic(OrEmpty(p.responseTopic))) +
      Maybe(p.correlation != [], Correlation(p.correlation));
    EncodeConcat(f, UserList(p.users));
    EncodeThen(f + UserList(p.users), p.contentType.Some?, ContentType(OrEmpty(p.contentType)),
               Field(CONTENT_TYPE, 2, p.contentType, |OrEmpty(p.contentType)|));
  }

  /** Topic and packet identifier. An empty topic needs an alias. */
  method AppendHead(c: Connection, topic: seq<byte>, alias: uint16, payloadMissing: bool, qos: nat, freshId: uint16)
    returns (ok: bool, id: uint16)
    requires c.Valid() && freshId != 0
    modifies c`length, c.buffer
    ensures c.Valid()
    ensures ok <==> !(topic == [] && alias == 0) && !payloadMissing && HeadEnd(topic, qos) <= c.buffer.Length
    ensures ok ==>
              && id == (if qos > 0 then freshId else 0)
              && c.length == HeadEnd(topic, qos)
              && c.Body() == Head(topic, qos, id)
  {
    ok, id := false, 0;
    c.SetHeaderSize();
    if topic == [] && alias == 0 {
      return;
    }
    var r := AppendProperty(c, 0, 2, Some(topic), |topic|);
    if r == -1 || payloadMissing {
      return;
    }
    if qos > 0 {
      id := c.AppendMessageId(0, freshId);
      if id == 0 {
        return;
      }
    }
    assert c.Body() == Head(topic, qos, id);
    ok := true;
  }

  /** The property block with its length in front of it, behind the head. */
  method AppendPropertyBlock(c: Connection, p: Config, ghost head: seq<byte>) returns (ok: bool)
    requires c.Valid() && MAX_FIXED_HEADER_SIZE <= c.length <= c.buffer.Length && c.Body() == head
    modifies c`length, c.buffer
    ensures c.Valid() && MAX_FIXED_HEADER_SIZE <= c.length
    ensures var block := EncodeAll(PropertyList(p));
            && (ok <==> old(c.length) + |VarLen.Encode(|block|)| + |block| <= c.buffer.Length)
            && (ok ==> c.length == old(c.length) + |VarLen.Encode(|block|)| + |block| && c.Body() == head + VarLen.Encode(|block|) + block)
  {
    ConfigBytesAreProperties(p);
    hide ConfigBytes, PropertyList, EncodeAll;
    var at := c.length;
    c.length := c.length + 1;
    ghost var body := if c.length <= c.buffer.Length then c.Body() else [];
    assert c.length <= c.buffer.Length ==> body[..at - MAX_FIXED_HEADER_SIZE] == head;
    ok := AppendProperties(c, p, at + 1, body);
    if !ok {
      return;
    }
    ghost var block := ConfigBytes(p);
    if c.length <= c.buffer.Length {
      PartsOfBody(c.buffer[..], at, c.length, head, body, block);
    }
    var r := UpdatePropertyLength(c, c.length - at - 1, at);
    ok := r != -1;
  }

  lemma PartsOfBody(b: seq<byte>, at: nat, end: nat, head: seq<byte>, body: seq<byte>, block: seq<byte>)
    requires MAX_FIXED_HEADER_SIZE <= at < end <= |b| && |body| == at + 1 - MAX_FIXED_HEADER_SIZE
    requires b[MAX_FIXED_HEADER_SIZE..end] == body + block && body[..at - MAX_FIXED_HEADER_SIZE] == head
    ensures b[MAX_FIXED_HEADER_SIZE..at] == head && b[at + 1..end] == block
  {
    var s := b[MAX_FIXED_HEADER_SIZE..end];
    assert b[MAX_FIXED_HEADER_SIZE..at] == s[..at - MAX_FIXED_HEADER_SIZE];
    assert b[at + 1..end] == s[at + 1 - MAX_FIXED_HEADER_SIZE..];
  }

  predicate Split(bufferLength: nat, topic: seq<byte>, data: Option<seq<byte>>, qos: nat, p: Config) {
    BodyStart(topic, qos, p) + |P311.Payload(data)| > bufferLength
  }

  /** The arguments are refused, or topic, identifier and properties do not fit: nothing is staged. */
  predicate Unstaged(bufferLength: nat, topic: seq<byte>, data: Option<seq<byte>>, dataLength: int, qos: nat, p: Config) {
    (topic == [] && p.alias == 0) || BodyStart(topic, qos, p) > bufferLength || (data.None? && dataLength > 0)
  }

  /** The fragment fields after staging, the offset counted from the start of the buffer. */
  function FragTotalAfter(bufferLength: nat, topic: seq<byte>, data: Option<seq<byte>>, qos: nat, p: Config): nat {
    if Split(bufferLength, topic, data, qos, p) then BodyStart(topic, qos, p) + |P311.Payload(data)| else 0
  }

  function FragStartAfter(bufferLength: nat, topic: seq<byte>, data: Option<seq<byte>>, qos: nat, p: Config, fragOffset: uint32): nat {
    if Split(bufferLength, topic, data, qos, p) then BodyStart(topic, qos, p) else fragOffset
  }

  predicate CannotBuild(bufferLength: nat, topic: seq<byte>, data: Option<seq<byte>>, dataLength: int, qos: nat, p: Config) {
    || Unstaged(bufferLength, topic, data, dataLength, qos, p)
    || BodyStart(topic, qos, p) - MAX_FIXED_HEADER_SIZE + |P311.Payload(data)| >= 0x1000_0000
  }

  /** A message with payload is refused only with neither topic nor alias, or when its header does not fit, or for 2^28 bytes and more. */
  lemma RefusedOnlyFor(bufferLength: nat, topic: seq<byte>, payload: seq<byte>, qos: nat, p: Config)
    ensures CannotBuild(bufferLength, topic, Some(payload), |payload|, qos, p) <==>
              var properties := |EncodeAll(PropertyList(p))|;
              var head := 2 + |topic| + (if qos == 0 then 0 else 2) + |VarLen.Encode(properties)| + properties;
              (topic == [] && p.alias == 0) || 5 + head > bufferLength || head + |payload| >= 0x1000_0000
  {
    hide VarLen.Encode, EncodeAll, PropertyList;
  }

  /** The body, as far as the buffer takes it. */
  method StageBody(c: Connection, topic: seq<byte>, data: Option<seq<byte>>, dataLength: int, qos: nat, p: Config, freshId: uint16)
    returns (ok: bool, id: uint16)
    requires c.Valid() && freshId != 0
    requires data.Some? ==> dataLength == |data.value| < 0x8000_0000
    modifies c`length, c`fragOffset, c`fragTotal, c.buffer
    ensures c.Valid()
    ensures ok <==> !Unstaged(c.buffer.Length, topic, data, dataLength, qos, p)
    ensures !ok ==> c.fragTotal == old(c.fragTotal) && c.fragOffset == old(c.fragOffset)
    ensures ok ==>
              && id == (if qos > 0 then freshId else 0)
              && c.length == (if Split(c.buffer.Length, topic, data, qos, p) then c.buffer.Length
                              else BodyStart(topic, qos, p) + |P311.Payload(data)|)
              && c.Body() == PublishBody(topic, qos, id, p, P311.Payload(data))[..c.length - MAX_FIXED_HEADER_SIZE]
              && c.fragTotal == FragTotalAfter(c.buffer.Length, topic, data, qos, p)
              && c.fragOffset == FragStartAfter(c.buffer.Length, topic, data, qos, p, old(c.fragOffset))
  {
    ok, id := AppendHead(c, topic, p.alias, data.None? && dataLength > 0, qos, freshId);
    if !ok {
      return;
    }
    ok := AppendPropertyBlock(c, p, Head(topic, qos, id));
    if !ok {
      return;
    }
    hide EncodeAll, PropertyList, Head;
    assert PublishBody(topic, qos, id, p, P311.Payload(data)) == c.Body() + P311.Payload(data);
    if data.Some? {
      P311.StagePayload(c, c.Body(), data.value);
    } else {
      c.fragTotal := 0;
      assert c.Body() == PublishBody(topic, qos, id, p, P311.Payload(data))[..c.length - MAX_FIXED_HEADER_SIZE];
    }
  }

  /** Builds a PUBLISH in the connection buffer, staged as far as the buffer goes. */
  method MsgPublish(c: Connection, topic: seq<byte>, data: Option<seq<byte>>, dataLength: int, qos: nat, retain: nat, p: Config,
                    freshId: uint16) returns (id: uint16)
    requires c.Valid() && freshId != 0
    requires data.Some? ==> dataLength == |data.value| < 0x8000_0000
    modifies c, c.buffer
    ensures c.Valid() && c.dataOffset + c.length <= c.buffer.Length
    ensures c.length == 0 <==> CannotBuild(c.buffer.Length, topic, data, dataLength, qos, p)
    ensures c.length != 0 ==>
              var body := PublishBody(topic, qos, id, p, P311.Payload(data));
              && id == (if qos > 0 then freshId else 0)
              && c.dataOffset == MAX_FIXED_HEADER_SIZE - 1 - |VarLen.Encode(|body|)|
              && c.dataOffset + c.length == (if Split(c.buffer.Length, topic, data, qos, p) then c.buffer.Length
                                             else MAX_FIXED_HEADER_SIZE + |body|)
              && c.Message() == PacketPrefix(FirstByte(TYPE_PUBLISH, 0, qos, retain), |body|,
                                             body[..c.dataOffset + c.length - MAX_FIXED_HEADER_SIZE])
    ensures c.fragTotal == if Unstaged(c.buffer.Length, topic, data, dataLength, qos, p) then old(c.fragTotal)
                           else FragTotalAfter(c.buffer.Length, topic, data, qos, p)
    ensures c.length == 0 ==>
              c.fragOffset == if Unstaged(c.buffer.Length, topic, data, dataLength, qos, p) then old(c.fragOffset)
                              else FragStartAfter(c.buffer.Length, topic, data, qos, p, old(c.fragOffset))
    ensures c.length != 0 ==>
              && FragStartAfter(c.buffer.Length, topic, data, qos, p, old(c.fragOffset)) < 0x1_0000_0000
              && c.fragOffset == Wrap32(FragStartAfter(c.buffer.Length, topic, data, qos, p, old(c.fragOffset)) - c.dataOffset)
  {
    hide PublishBody, BodyStart, EncodeAll, PropertyList, P311.Payload;
    var ok;
    ok, id := StageBody(c, topic, data, dataLength, qos, p, freshId);
    if !ok {
      c.FailMessage();
      return;
    }
    c.FiniMessage(TYPE_PUBLISH, 0, qos, retain);
  }

  /** The body ends in the payload. */
  lemma BodyAndPayload(topic: seq<byte>, qos: nat, id: uint16, p: Config, payload: seq<byte>, n: nat)
    requires BodyStart(topic, qos, p) - MAX_FIXED_HEADER_SIZE <= n <= BodyStart(topic, qos, p) - MAX_FIXED_HEADER_SIZE + |payload|
    ensures PublishBody(topic, qos, id, p, payload)[n..] == payload[n - (BodyStart(topic, qos, p) - MAX_FIXED_HEADER_SIZE)..]
  {
    hide EncodeAll, PropertyList, VarLen.Encode, Head;
    var front := Head(topic, qos, id) + VarLen.Encode(|EncodeAll(PropertyList(p))|) + EncodeAll(PropertyList(p));
    TailOfConcat(front, payload, n);
  }
}
