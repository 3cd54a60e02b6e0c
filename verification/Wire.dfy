/** The control packets of the models, byte by byte (chapter 3 of MQTT 3.1.1 and of MQTT 5.0). */
module Wire {
  import opened Bytes
  import opened Connection
  import opened Properties5
  import P311 = Publish311
  import P5 = Publish5
  import R311 = Readers311
  import R5 = Readers5
  import VarLen

  lemma Groups(n: nat)
    ensures n / 0x80 / 0x80 == n / 0x4000 && n / 0x80 / 0x4000 == n / 0x20_0000
  {
  }

  lemma MoreBytes(n: nat)
    ensures VarLen.Encode(n) == if n < 0x80 then [n] else [0x80 + n % 0x80] + VarLen.Encode(n / 0x80)
  {
  }

  /** A remaining length: seven bits a byte, lowest first, the top bit set on all but the last. */
  lemma {:induction false} LengthBytes(n: nat)
    ensures n < 0x80 ==> VarLen.Encode(n) == [n]
    ensures 0x80 <= n < 0x4000 ==> VarLen.Encode(n) == [0x80 + n % 0x80, n / 0x80]
    ensures 0x4000 <= n < 0x20_0000 ==> VarLen.Encode(n) == [0x80 + n % 0x80, 0x80 + n / 0x80 % 0x80, n / 0x4000]
    ensures 0x20_0000 <= n < 0x1000_0000 ==>
              VarLen.Encode(n) == [0x80 + n % 0x80, 0x80 + n / 0x80 % 0x80, 0x80 + n / 0x4000 % 0x80, n / 0x20_0000]
  {
    MoreBytes(n);
    hide VarLen.Encode;
    if 0x80 <= n {
      Groups(n);
      LengthBytes(n / 0x80);
    }
  }

  lemma Regroup(front: seq<byte>, a: seq<byte>, b: seq<byte>, c: seq<byte>, d: seq<byte>)
    ensures front + (a + b + c + d) == front + a + b + c + d
  {
  }

  /** The first byte of a PUBLISH: type 3 and its flags. */
  lemma FirstOfPublish(dup: nat, qos: nat, retain: nat)
    requires dup < 2 && qos < 4 && retain < 2
    ensures FirstByte(TYPE_PUBLISH, dup, qos, retain) == 0x30 + 8 * dup + 2 * qos + retain
  {
  }

  /** PUBLISH of MQTT 3.1.1: first byte, remaining length, topic, identifier if the QoS asks for one, payload. */
  lemma PublishBytes(topic: seq<byte>, dup: nat, qos: nat, retain: nat, id: uint16, payload: seq<byte>)
    ensures P311.PublishPacket(topic, dup, qos, retain, id, payload)
            == [FirstByte(TYPE_PUBLISH, dup, qos, retain)] + VarLen.Encode(2 + |topic| + (if qos > 0 then 2 else 0) + |payload|)
               + Be16(|topic|) + topic + (if qos > 0 then Be16(id) else []) + payload
  {
    hide VarLen.Encode, FirstByte, Be16;
    var n := 2 + |topic| + (if qos > 0 then 2 else 0) + |payload|;
    assert |P311.PublishBody(topic, qos, id, payload)| == n;
    Regroup([FirstByte(TYPE_PUBLISH, dup, qos, retain)] + VarLen.Encode(n), Be16(|topic|), topic, if qos > 0 then Be16(id) else [], payload);
  }

  /** PUBLISH of MQTT 5.0: the same with the property block, behind its length, in front of the payload. */
  lemma Publish5Bytes(topic: seq<byte>, dup: nat, qos: nat, retain: nat, id: uint16, p: Config, payload: seq<byte>)
    ensures var properties := EncodeAll(PropertyList(p));
            var size := VarLen.Encode(|properties|);
            P5.PublishPacket(topic, dup, qos, retain, id, p, payload)
            == [FirstByte(TYPE_PUBLISH, dup, qos, retain)]
               + VarLen.Encode(2 + |topic| + (if qos > 0 then 2 else 0) + |size| + |properties| + |payload|)
               + Be16(|topic|) + topic + (if qos > 0 then Be16(id) else []) + size + properties + payload
  {
    hide VarLen.Encode, FirstByte, Be16, EncodeAll, PropertyList;
    var properties := EncodeAll(PropertyList(p));
    var size, i := VarLen.Encode(|properties|), if qos > 0 then Be16(id) else [];
    var n := 2 + |topic| + (if qos > 0 then 2 else 0) + |size| + |properties| + |payload|;
    var body := P5.PublishBody(topic, qos, id, p, payload);
    assert |body| == n;
    assert body == (Be16(|topic|) + topic + i) + size + properties + payload;
    hide P5.PublishBody;
    var front := [FirstByte(TYPE_PUBLISH, dup, qos, retain)] + VarLen.Encode(n);
    Regroup(front, Be16(|topic|) + topic + i, size, properties, payload);
    Regroup(front, Be16(|topic|), topic, i, []);
  }

  /** An acknowledgement of either kind has its identifier behind the length byte, high byte first. */
  lemma AckIdBytes(s: seq<byte>)
    requires |s| >= 4 && s[1] < 0x80 && 4 <= s[0] / 16 <= 11
    ensures R311.MessageId(s) == s[2] as int * 0x100 + s[3] && R5.MessageId(s) == s[2] as int * 0x100 + s[3]
  {
  }

  /** The properties a PUBLISH may carry (section 2.2.2.2 of MQTT 5.0). */
  lemma PropertyBytes(p: Property)
    requires WellFormed(p)
    ensures match p
            case PayloadFormat(v) => Encode(p) == [1, v]
            case MessageExpiry(v) => var high, low := v / 0x1_0000, v % 0x1_0000; Encode(p) == [2, high / 0x100, high % 0x100, low / 0x100, low % 0x100]
            case ContentType(s) => Encode(p) == [3, |s| / 0x100, |s| % 0x100] + s
            case ResponseTopic(s) => Encode(p) == [8, |s| / 0x100, |s| % 0x100] + s
            case Correlation(s) => Encode(p) == [9, |s| / 0x100, |s| % 0x100] + s
            case SubscribeId(n) => Encode(p) == [11] + VarLen.Encode(n)
            case ReasonString(s) => Encode(p) == [31, |s| / 0x100, |s| % 0x100] + s
            case TopicAlias(v) => Encode(p) == [35, v / 0x100, v % 0x100]
            case UserProperty(k, v) => Encode(p) == [38, |k| / 0x100, |k| % 0x100] + k + [|v| / 0x100, |v| % 0x100] + v
  {
    hide VarLen.Encode, Be16, Be32;
    match p
    case PayloadFormat(_) =>
    case MessageExpiry(v) => Be32Bytes(v);
    case SubscribeId(_) =>
    case TopicAlias(v) => Be16Bytes(v);
    case UserProperty(k, v) => StrBytes(38, k); Be16Bytes(|v|);
    case ContentType(s) => StrBytes(3, s);
    case ResponseTopic(s) => StrBytes(8, s);
    case Correlation(s) => StrBytes(9, s);
    case ReasonString(s) => StrBytes(31, s);
  }

  lemma StrBytes(id: byte, s: seq<byte>)
    requires |s| < 0x1_0000
    ensures [id] + Str(s) == [id, |s| / 0x100, |s| % 0x100] + s
  {
  }

  lemma Be32Bytes(v: uint32)
    ensures var high, low := v / 0x1_0000, v % 0x1_0000; Be32(v) == [high / 0x100, high % 0x100, low / 0x100, low % 0x100]
  {
    Be16Bytes(v / 0x1_0000);
    Be16Bytes(v % 0x1_0000);
    hide Be16;
  }
}
