/** The property block of an MQTT 5.0 PUBLISH (section 3.3.2.3): encoding, reading, and their agreement. */
module Properties5 {
  import opened Bytes
  import VarLen

  const PAYLOAD_FORMAT_INDICATOR := 0x01
  const MESSAGE_EXPIRY_INTERVAL := 0x02
  const CONTENT_TYPE := 0x03
  const RESPONSE_TOPIC := 0x08
  const CORRELATION_DATA := 0x09
  const SUBSCRIBE_IDENTIFIER := 0x0B
  const REASON_STRING := 0x1F
  const TOPIC_ALIAS := 0x23
  const USER_PROPERTY := 0x26

  datatype Property =
    | PayloadFormat(indicator: byte)
    | MessageExpiry(interval: uint32)
    | TopicAlias(alias: uint16)
    | ResponseTopic(topic: seq<byte>)
    | Correlation(data: seq<byte>)
    | UserProperty(key: seq<byte>, val: seq<byte>)
    | ContentType(contentType: seq<byte>)
    | SubscribeId(subscribeId: nat)
    | ReasonString(reason: seq<byte>)

  function Be32(n: nat): seq<byte> {
    Be16(n / 0x1_0000) + Be16(n % 0x1_0000)
  }

  function Str(s: seq<byte>): seq<byte> {
    Be16(|s|) + s
  }

  function Encode(p: Property): (e: seq<byte>)
    ensures |e| > 0
  {
    match p
    case PayloadFormat(v) => [PAYLOAD_FORMAT_INDICATOR, v]
    case MessageExpiry(v) => [MESSAGE_EXPIRY_INTERVAL] + Be32(v)
    case TopicAlias(v) => [TOPIC_ALIAS] + Be16(v)
    case ResponseTopic(s) => [RESPONSE_TOPIC] + Str(s)
    case Correlation(s) => [CORRELATION_DATA] + Str(s)
    case UserProperty(k, v) => [USER_PROPERTY] + Str(k) + Str(v)
    case ContentType(s) => [CONTENT_TYPE] + Str(s)
    case SubscribeId(n) => [SUBSCRIBE_IDENTIFIER] + VarLen.Encode(n)
    case ReasonString(s) => [REASON_STRING] + Str(s)
  }

  function EncodeAll(ps: seq<Property>): seq<byte> {
    if ps == [] then [] else Encode(ps[0]) + EncodeAll(ps[1..])
  }

  lemma {:induction false} EncodeConcat(a: seq<Property>, b: seq<Property>)
    ensures EncodeAll(a + b) == EncodeAll(a) + EncodeAll(b)
    decreases |a|
  {
    if a == [] {
      assert a + b == b;
    } else {
      assert (a + b)[1..] == a[1..] + b;
      EncodeConcat(a[1..], b);
    }
  }

  /** The lengths that the two-byte fields can hold, and the numbers that four length bytes can. */
  predicate WellFormed(p: Property) {
    match p
    case ResponseTopic(s) => |s| < 0x1_0000
    case Correlation(s) => |s| < 0x1_0000
    case UserProperty(k, v) => |k| < 0x1_0000 && |v| < 0x1_0000
    case ContentType(s) => |s| < 0x1_0000
    case ReasonString(s) => |s| < 0x1_0000
    case SubscribeId(n) => n < 0x1000_0000
    case _ => true
  }

  datatype Span = Span(start: nat, length: nat)

  /** What the reader fills in; strings are pointers into the property bytes, user properties are copies. */
  datatype Found = Found(payloadFormat: bool, expiry: uint32, alias: uint16, responseTopic: Option<Span>, correlation: Option<Span>,
                         contentType: Option<Span>, subscribeId: uint16, users: seq<(seq<byte>, seq<byte>)>)

  const NOTHING := Found(false, 0, 0, None, None, None, 0, [])

  datatype Reading =
    | Read(found: Found, offset: nat)
    | UnknownProperty
    | OutOfBounds      // a read past the received bytes, or a 16-bit offset overflow

  /** Reads one property at offset i of b. */
  function ReadOne(b: seq<byte>, i: nat, f: Found): (r: Reading)
    requires i < |b|
    ensures r.Read? ==> i < r.offset < 0x1_0000
  {
    var r :=
      match b[i]
      case 0x01 => if i + 2 > |b| then OutOfBounds else Read(f.(payloadFormat := b[i + 1] != 0), i + 2)
      case 0x02 => if i + 5 > |b| then OutOfBounds else Read(f.(expiry := ReadBe32(b, i + 1)), i + 5)
      case 0x23 => if i + 3 > |b| then OutOfBounds else Read(f.(alias := ReadBe16(b, i + 1)), i + 3)
      case 0x0B => ReadSubscribe(b, i + 1, f)
      case 0x26 => ReadUserProperty(b, i + 1, f)
      case id =>
        if id != 0x08 && id != 0x09 && id != 0x03 && id != 0x1F then UnknownProperty
        else if i + 3 > |b| then OutOfBounds
        else Read(SetString(f, id, SpanAt(b, i + 1)), EndAt(b, i + 1));
    if r.Read? && r.offset >= 0x1_0000 then OutOfBounds else r
  }

  function SetString(f: Found, id: byte, span: Span): Found {
    match id
    case 0x08 => f.(responseTopic := Some(span))
    case 0x09 => f.(correlation := Some(span))
    case 0x03 => f.(contentType := Some(span))
    case _ => f
  }

  function ReadSubscribe(b: seq<byte>, j: nat, f: Found): (r: Reading)
    requires j <= |b|
    ensures r.Read? ==> j <= r.offset
  {
    var d := VarLen.Decode(b[j..]);
    if !d.done || d.used > 5 then OutOfBounds else Read(f.(subscribeId := d.value % 0x1_0000), j + d.used)
  }

  function ReadUserProperty(b: seq<byte>, j: nat, f: Found): (r: Reading)
    requires j <= |b|
    ensures r.Read? ==> j < r.offset
  {
    if j + 2 > |b| || EndAt(b, j) + 2 > |b| then OutOfBounds
    else
      var k := EndAt(b, j);
      if EndAt(b, k) > |b| then OutOfBounds
      else Read(f.(users := f.users + [(b[j + 2..k], b[k + 2..EndAt(b, k)])]), EndAt(b, k))
  }

  function ReadBe32(s: seq<byte>, i: nat): uint32
    requires i + 4 <= |s|
  {
    ReadBe16(s, i) as int * 0x1_0000 + ReadBe16(s, i + 2)
  }

  function SpanAt(b: seq<byte>, i: nat): Span
    requires i + 2 <= |b|
  {
    Span(i + 2, ReadBe16(b, i))
  }

  function EndAt(b: seq<byte>, i: nat): nat
    requires i + 2 <= |b|
  {
    i + 2 + ReadBe16(b, i)
  }

  /** The reading loop, from offset i up to the announced property length. */
  function ReadFrom(b: seq<byte>, i: nat, propertyLength: nat, f: Found): Reading
    decreases 0x1_0000 - i
  {
    if i >= propertyLength then Read(f, i)
    else if i >= |b| then OutOfBounds
    else
      var r := ReadOne(b, i, f);
      if r.Read? then ReadFrom(b, r.offset, propertyLength, r.found) else r
  }

  /** What a received property block says, as values. */
  datatype Values = Values(payloadFormat: bool, expiry: uint32, alias: uint16, responseTopic: Option<seq<byte>>,
                           correlation: Option<seq<byte>>, contentType: Option<seq<byte>>, subscribeId: uint16,
                           users: seq<(seq<byte>, seq<byte>)>)

  const NO_VALUES := Values(false, 0, 0, None, None, None, 0, [])

  function At(b: seq<byte>, span: Option<Span>): Option<seq<byte>> {
    if span.Some? && span.value.start + span.value.length <= |b|
    then Some(b[span.value.start..span.value.start + span.value.length])
    else None
  }

  function Resolve(b: seq<byte>, f: Found): Values {
    Values(f.payloadFormat, f.expiry, f.alias, At(b, f.responseTopic), At(b, f.correlation), At(b, f.contentType), f.subscribeId, f.users)
  }

  /** A later property replaces an earlier one of its kind; user properties accumulate. */
  function Apply(v: Values, p: Property): Values {
    match p
    case PayloadFormat(x) => v.(payloadFormat := x != 0)
    case MessageExpiry(x) => v.(expiry := x)
    case TopicAlias(x) => v.(alias := x)
    case ResponseTopic(s) => v.(responseTopic := Some(s))
    case Correlation(s) => v.(correlation := Some(s))
    case UserProperty(k, x) => v.(users := v.users + [(k, x)])
    case ContentType(s) => v.(contentType := Some(s))
    case SubscribeId(n) => v.(subscribeId := n % 0x1_0000)
    case ReasonString(_) => v
  }

  function ApplyAll(v: Values, ps: seq<Property>): Values
    decreases |ps|
  {
    if ps == [] then v else ApplyAll(Apply(v, ps[0]), ps[1..])
  }

  /** A two-byte length and its string, at offset i of b. */
  lemma ReadStr(b: seq<byte>, i: nat, s: seq<byte>)
    requires |s| < 0x1_0000 && i + |Str(s)| <= |b| && b[i..i + |Str(s)|] == Str(s)
    ensures ReadBe16(b, i) == |s| && EndAt(b, i) == i + |Str(s)| && At(b, Some(SpanAt(b, i))) == Some(s) && b[i + 2..EndAt(b, i)] == s
  {
    var e := b[i..i + |Str(s)|];
    assert e[0] == Str(s)[0] && e[1] == Str(s)[1] && b[i] == e[0] && b[i + 1] == e[1];
    assert b[i + 2..i + 2 + |s|] == e[2..];
  }

  lemma ReadBe16At(b: seq<byte>, i: nat, n: uint16)
    requires i + 2 <= |b| && b[i..i + 2] == Be16(n)
    ensures ReadBe16(b, i) == n
  {
  }

  lemma ReadBe32At(b: seq<byte>, i: nat, n: uint32)
    requires i + 4 <= |b| && b[i..i + 4] == Be32(n)
    ensures ReadBe32(b, i) == n
  {
    assert b[i..i + 2] == b[i..i + 4][..2] && b[i + 2..i + 4] == b[i..i + 4][2..];
    ReadBe16At(b, i, n / 0x1_0000);
    ReadBe16At(b, i + 2, n % 0x1_0000);
  }

  /** Property p is encoded at offset i of b. */
  predicate EncodedAt(b: seq<byte>, i: nat, p: Property) {
    && WellFormed(p) && i + |Encode(p)| <= |b| && i + |Encode(p)| < 0x1_0000
    && b[i] == Encode(p)[0] && b[i + 1..i + |Encode(p)|] == Encode(p)[1..]
  }

  /** Reading at i finds exactly property p and stops right behind it. */
  predicate ReadsBack(b: seq<byte>, i: nat, p: Property, f: Found)
    requires i < |b|
  {
    var r := ReadOne(b, i, f);
    r.Read? && r.offset == i + |Encode(p)| && Resolve(b, r.found) == Apply(Resolve(b, f), p)
  }

  lemma ReadNumber(b: seq<byte>, i: nat, p: Property, f: Found)
    requires p.PayloadFormat? || p.MessageExpiry? || p.TopicAlias?
    requires EncodedAt(b, i, p)
    ensures ReadsBack(b, i, p, f)
  {
    match p
    case PayloadFormat(v) => assert b[i + 1] == b[i + 1..i + 2][0] == v;
    case MessageExpiry(v) => ReadBe32At(b, i + 1, v);
    case TopicAlias(v) => ReadBe16At(b, i + 1, v);
  }

  lemma ReadString(b: seq<byte>, i: nat, p: Property, s: seq<byte>, f: Found)
    requires p == ResponseTopic(s) || p == Correlation(s) || p == ContentType(s) || p == ReasonString(s)
    requires EncodedAt(b, i, p)
    ensures ReadsBack(b, i, p, f)
  {
    assert Encode(p)[1..] == Str(s);
    ReadStr(b, i + 1, s);
    assert ReadOne(b, i, f) == Read(SetString(f, b[i], SpanAt(b, i + 1)), EndAt(b, i + 1));
    assert |Encode(p)| == 1 + |Str(s)|;
    hide Str, EndAt, SpanAt, At, ReadOne;
  }

  lemma SplitAt(b: seq<byte>, i: nat, x: seq<byte>, y: seq<byte>)
    requires i + |x| + |y| <= |b| && b[i..i + |x| + |y|] == x + y
    ensures b[i..i + |x|] == x && b[i + |x|..i + |x| + |y|] == y
  {
    var e := b[i..i + |x| + |y|];
    assert b[i..i + |x|] == e[..|x|] && b[i + |x|..i + |x| + |y|] == e[|x|..];
  }

  lemma ReadTwoStr(b: seq<byte>, i: nat, k: seq<byte>, v: seq<byte>, f: Found)
    requires |k| < 0x1_0000 && |v| < 0x1_0000
    requires i + |Str(k)| + |Str(v)| <= |b| && b[i..i + |Str(k)| + |Str(v)|] == Str(k) + Str(v)
    ensures ReadUserProperty(b, i, f) == Read(f.(users := f.users + [(k, v)]), i + |Str(k)| + |Str(v)|)
  {
    SplitAt(b, i, Str(k), Str(v));
    ReadStr(b, i, k);
    ReadStr(b, i + |Str(k)|, v);
    assert |Str(k)| >= 2 && |Str(v)| >= 2;
    hide Str, EndAt, SpanAt, At;
  }

  lemma ReadUser(b: seq<byte>, i: nat, k: seq<byte>, v: seq<byte>, f: Found)
    requires EncodedAt(b, i, UserProperty(k, v))
    ensures ReadsBack(b, i, UserProperty(k, v), f)
  {
    assert Encode(UserProperty(k, v))[1..] == Str(k) + Str(v);
    ReadTwoStr(b, i + 1, k, v, f);
    assert ReadOne(b, i, f) == ReadUserProperty(b, i + 1, f);
    assert |Encode(UserProperty(k, v))| == 1 + |Str(k)| + |Str(v)|;
    hide Str, ReadUserProperty, ReadOne, At;
  }

  lemma ReadSubscribeId(b: seq<byte>, i: nat, n: nat, f: Found)
    requires EncodedAt(b, i, SubscribeId(n))
    ensures ReadsBack(b, i, SubscribeId(n), f)
  {
    var e := VarLen.Encode(n);
    VarLen.FitsFourBytes(n);
    VarLen.DecodeEncode(n, b[i + 1 + |e|..]);
    assert Encode(SubscribeId(n))[1..] == e && |Encode(SubscribeId(n))| == 1 + |e|;
    assert b[i + 1..i + 1 + |e|] == e;
    assert b[i + 1..] == b[i + 1..i + 1 + |e|] + b[i + 1 + |e|..];
    assert ReadOne(b, i, f) == ReadSubscribe(b, i + 1, f);
    hide VarLen.Encode, VarLen.Decode, ReadOne, At;
  }

  lemma ReadOneProperty(b: seq<byte>, i: nat, p: Property, f: Found)
    requires EncodedAt(b, i, p)
    ensures ReadsBack(b, i, p, f)
  {
    hide ReadsBack, EncodedAt;
    match p
    case PayloadFormat(_) => ReadNumber(b, i, p, f);
    case MessageExpiry(_) => ReadNumber(b, i, p, f);
    case TopicAlias(_) => ReadNumber(b, i, p, f);
    case ResponseTopic(s) => ReadString(b, i, p, s, f);
    case Correlation(s) => ReadString(b, i, p, s, f);
    case ContentType(s) => ReadString(b, i, p, s, f);
    case ReasonString(s) => ReadString(b, i, p, s, f);
    case UserProperty(k, v) => ReadUser(b, i, k, v, f);
    case SubscribeId(n) => ReadSubscribeId(b, i, n, f);
  }

  lemma BlockHead(b: seq<byte>, i: nat, e: seq<byte>, rest: seq<byte>)
    requires i + |e| + |rest| <= |b| && e != []
    requires b[i..i + |e| + |rest|] == e + rest
    ensures b[i] == e[0] && b[i + 1..i + |e|] == e[1..] && b[i + |e|..i + |e| + |rest|] == rest
  {
    var block := b[i..i + |e| + |rest|];
    assert b[i] == block[0];
    assert b[i..i + |e|] == block[..|e|] == e;
    assert b[i + 1..i + |e|] == b[i..i + |e|][1..];
    assert b[i + |e|..i + |e| + |rest|] == block[|e|..];
  }

  /** Reading an encoded property block gives the properties applied in order, for any list of them. */
  lemma {:induction false} ReadBlock(b: seq<byte>, i: nat, ps: seq<Property>, f: Found)
    requires forall k :: 0 <= k < |ps| ==> WellFormed(ps[k])
    requires i + |EncodeAll(ps)| <= |b| && i + |EncodeAll(ps)| < 0x1_0000
    requires b[i..i + |EncodeAll(ps)|] == EncodeAll(ps)
    ensures var r := ReadFrom(b, i, i + |EncodeAll(ps)|, f);
            r.Read? && r.offset == i + |EncodeAll(ps)| && Resolve(b, r.found) == ApplyAll(Resolve(b, f), ps)
    decreases |ps|
  {
    hide ReadOne, Apply, Resolve, Encode, WellFormed;
    if ps != [] {
      var e := Encode(ps[0]);
      BlockHead(b, i, e, EncodeAll(ps[1..]));
      ReadOneProperty(b, i, ps[0], f);
      ReadBlock(b, i + |e|, ps[1..], ReadOne(b, i, f).found);
    }
  }

  /** The properties an application may attach to a PUBLISH; a null pointer is the same as leaving all out. */
  datatype Config = Config(payloadFormat: bool, expiry: uint32, alias: uint16, responseTopic: Option<seq<byte>>, correlation: seq<byte>,
                           users: seq<(seq<byte>, seq<byte>)>, contentType: Option<seq<byte>>)

  function UserList(users: seq<(seq<byte>, seq<byte>)>): seq<Property> {
    if users == [] then [] else [UserProperty(users[0].0, users[0].1)] + UserList(users[1..])
  }

  function Maybe(present: bool, p: Property): seq<Property> {
    if present then [p] else []
  }

  /** The properties put in the packet, in the order of the builder. */
  function PropertyList(p: Config): seq<Property> {
    Maybe(p.payloadFormat, PayloadFormat(1)) +
    Maybe(p.expiry != 0, MessageExpiry(p.expiry)) +
    Maybe(p.alias != 0, TopicAlias(p.alias)) +
    Maybe(p.responseTopic.Some?, ResponseTopic(OrEmpty(p.responseTopic))) +
    Maybe(p.correlation != [], Correlation(p.correlation)) +
    UserList(p.users) +
    Maybe(p.contentType.Some?, ContentType(OrEmpty(p.contentType)))
  }

  lemma NoSubscribeId(p: Config)
    ensures forall x :: x in PropertyList(p) ==> !x.SubscribeId?
  {
    AllUsers(p.users);
    hide UserList;
  }

  lemma {:induction false} AllUsers(users: seq<(seq<byte>, seq<byte>)>)
    ensures forall x :: x in UserList(users) ==> x.UserProperty?
    decreases |users|
  {
    if users != [] {
      AllUsers(users[1..]);
    }
  }

  function OrEmpty(s: Option<seq<byte>>): seq<byte> {
    if s.Some? then s.value else []
  }

  /** The same properties as a receiver should see them. */
  function Expected(p: Config): Values {
    Values(p.payloadFormat, p.expiry, p.alias, p.responseTopic, if p.correlation == [] then None else Some(p.correlation), p.contentType, 0, p.users)
  }

  lemma {:induction false} ApplyConcat(v: Values, a: seq<Property>, b: seq<Property>)
    ensures ApplyAll(v, a + b) == ApplyAll(ApplyAll(v, a), b)
    decreases |a|
  {
    if a == [] {
      assert a + b == b;
    } else {
      assert (a + b)[1..] == a[1..] + b;
      ApplyConcat(Apply(v, a[0]), a[1..], b);
    }
  }

  lemma {:induction false} ApplyUsers(v: Values, users: seq<(seq<byte>, seq<byte>)>)
    ensures ApplyAll(v, UserList(users)) == v.(users := v.users + users)
    decreases |users|
  {
    if users == [] {
      assert v.users + users == v.users;
    } else {
      UserListHead(users);
      var w := v.(users := v.users + [users[0]]);
      ApplyUsers(w, users[1..]);
      assert w.users + users[1..] == v.users + users;
    }
  }

  lemma UserListHead(users: seq<(seq<byte>, seq<byte>)>)
    requires users != []
    ensures |UserList(users)| > 0 && UserList(users)[0] == UserProperty(users[0].0, users[0].1) && UserList(users)[1..] == UserList(users[1..])
  {
  }

  lemma ApplyNone(v: Values)
    ensures ApplyAll(v, []) == v
  {
  }

  lemma ApplyThen(v: Values, a: seq<Property>, present: bool, p: Property)
    ensures ApplyAll(v, a + Maybe(present, p)) == if present then Apply(ApplyAll(v, a), p) else ApplyAll(v, a)
  {
    ApplyConcat(v, a, Maybe(present, p));
    assert [p][1..] == [];
    assert ApplyAll(ApplyAll(v, a), [p]) == Apply(ApplyAll(v, a), p);
  }

  /** Applying the list of an application's properties yields these properties. */
  lemma PropertyListMeansConfig(p: Config)
    ensures ApplyAll(NO_VALUES, PropertyList(p)) == Expected(p)
    ensures var v := ApplyAll(NO_VALUES, PropertyList(p));
            && v.payloadFormat == p.payloadFormat && v.expiry == p.expiry && v.alias == p.alias && v.users == p.users
            && v.responseTopic == p.responseTopic && v.contentType == p.contentType
            && v.correlation == (if p.correlation != [] then Some(p.correlation) else None)
  {
    hide ApplyAll, Maybe, UserList;
    var a := Maybe(p.payloadFormat, PayloadFormat(1));
    var b := a + Maybe(p.expiry != 0, MessageExpiry(p.expiry));
    var c := b + Maybe(p.alias != 0, TopicAlias(p.alias));
    var d := c + Maybe(p.responseTopic.Some?, ResponseTopic(OrEmpty(p.responseTopic)));
    var e := d + Maybe(p.correlation != [], Correlation(p.correlation));
    var v := NO_VALUES;
    assert [] + a == a;
    ApplyNone(v);
    ApplyThen(v, [], p.payloadFormat, PayloadFormat(1));
    ApplyThen(v, a, p.expiry != 0, MessageExpiry(p.expiry));
    ApplyThen(v, b, p.alias != 0, TopicAlias(p.alias));
    ApplyThen(v, c, p.responseTopic.Some?, ResponseTopic(OrEmpty(p.responseTopic)));
    ApplyThen(v, d, p.correlation != [], Correlation(p.correlation));
    ApplyConcat(v, e, UserList(p.users));
    ApplyUsers(ApplyAll(v, e), p.users);
    ApplyThen(v, e + UserList(p.users), p.contentType.Some?, ContentType(OrEmpty(p.contentType)));
    assert [] + p.users == p.users;
  }
}
