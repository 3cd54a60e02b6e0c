/** Writing the outbound message to the transport, and the loop that sends a large payload in fragments. */
module PublishSend {
  import opened Bytes
  import opened Connection

  /** The connection to the broker: every write takes some of the bytes offered, or fails. */
  class Transport {
    var wire: seq<byte>       // all bytes taken so far
    ghost var failures: nat   // writes that took nothing

    constructor ()
      ensures wire == []
    {
      wire, failures := [], 0;
    }

    method Write(data: seq<byte>) returns (written: int)
      modifies this
      ensures written <= |data|
      ensures wire == old(wire) + (if written > 0 then data[..written] else [])
      ensures failures == old(failures) + if written > 0 then 0 else 1
    {
      written := *;
      if written > |data| {
        written := |data|;
      }
      if written > 0 {
        wire := wire + data[..written];
      } else {
        failures := failures + 1;
      }
    }
  }

  /** esp_mqtt_write: offers the rest of the message until all of it is taken or a write fails. */
  method WriteAll(t: Transport, message: seq<byte>) returns (ok: bool)
    modifies t
    ensures ok ==> t.wire == old(t.wire) + message
    ensures !ok ==> old(t.wire) <= t.wire < old(t.wire) + message
    ensures t.failures == old(t.failures) + if ok then 0 else 1
  {
    var sent, len := 0, |message|;
    while len > 0
      invariant 0 <= sent <= |message| && len == |message| - sent
      invariant t.wire == old(t.wire) + message[..sent] && t.failures == old(t.failures)
    {
      var written := t.Write(message[sent..]);
      if written <= 0 {
        assert message == message[..sent] + message[sent..];
        return false;
      }
      assert message[..sent] + message[sent..sent + written] == message[..sent + written];
      sent := sent + written;
      len := len - written;
    }
    assert message[..sent] == message;
    return true;
  }

  /** The same for the message the connection points at. */
  method WriteMessage(c: Connection, t: Transport) returns (ok: bool)
    requires c.dataOffset + c.length <= c.buffer.Length
    modifies t
    ensures ok ==> t.wire == old(t.wire) + c.Message()
    ensures !ok ==> old(t.wire) <= t.wire < old(t.wire) + c.Message()
    ensures t.failures == old(t.failures) + if ok then 0 else 1
  {
    ok := WriteAll(t, c.buffer[..][c.dataOffset..c.dataOffset + c.length]);
  }

  /** The send loop's view of the message just written: payload bytes it counts as sent. */
  function CountedAsSent(length: nat, fragOffset: uint32): int
    requires length < 0x8000_0000
  {
    ToInt32(Wrap32(length - fragOffset))
  }

  datatype Outcome =
    | Sent          // every fragment written
    | WriteFailed
    | Stray         // the loop would copy from outside the payload
    | Unfinished

  /** All that is on the wire once the message and what is left have followed. */
  function Plan(wire: seq<byte>, message: seq<byte>, left: seq<byte>): seq<byte> { wire + message + left }

  /**
   The send loop, entered with the first message staged. What it writes is the staged message and then
   the payload from the first byte not counted as sent.
   */
  method SendFragments(c: Connection, t: Transport, payload: Option<seq<byte>>, len: int) returns (r: Outcome)
    requires c.Valid() && c.dataOffset + c.length <= c.buffer.Length
    requires payload.Some? ==> |payload.value| == len
    modifies c, c.buffer, t
    ensures c.Valid() && r != Unfinished && t.failures == old(t.failures) + if r == WriteFailed then 1 else 0
    ensures r != WriteFailed ==>
              && c.fragOffset == c.fragTotal == 0
              && (r == Stray <==> RunsAstray(payload, len, CountedAsSent(old(c.length), old(c.fragOffset))))
              && t.wire == Plan(old(t.wire), old(c.Message()), LeftAfter(payload, CountedAsSent(old(c.length), old(c.fragOffset))))
    ensures r == WriteFailed ==>
              old(t.wire) <= t.wire <= Plan(old(t.wire), old(c.Message()), LeftAfter(payload, CountedAsSent(old(c.length), old(c.fragOffset))))
  {
    hide CountedAsSent, LeftAfter, Plan;
    var remaining, current := len, 0;
    ghost var before, counted := t.wire, CountedAsSent(c.length, c.fragOffset);
    ghost var next := counted;
    ghost var plan := Plan(before, c.Message(), LeftAfter(payload, next));
    var sending, first := true, true;
    while sending
      invariant c.Valid() && c.dataOffset + c.length <= c.buffer.Length && before <= t.wire && t.failures == old(t.failures)
      invariant remaining == len - current && (first ==> current == 0)
      invariant first ==> sending && t.wire == before && counted == CountedAsSent(c.length, c.fragOffset)
      invariant sending ==> plan == Plan(t.wire, c.Message(), LeftAfter(payload, next)) && next == current + CountedAsSent(c.length, c.fragOffset)
      invariant !first ==> c.fragOffset == c.fragTotal == 0 && !RunsAstray(payload, len, counted)
      invariant !first && sending ==> && payload.Some? && 0 <= current < len && 0 < c.length <= remaining
                                      && CountedAsSent(c.length, c.fragOffset) == c.length
      invariant !sending ==> t.wire == plan
      decreases sending, if first then 1 else 0, remaining
    {
      ghost var message, wire := c.Message(), t.wire;
      var ok := WriteMessage(c, t);
      hide Connection.Message, Connection.Valid;
      if !ok {
        PlanCut(t.wire, wire, message, LeftAfter(payload, next));
        return WriteFailed;
      }
      assert t.wire == wire + message;
      var step;
      step, remaining, current := Advance(c, payload, remaining, current);
      first := false;
      if step == Sent {
        PlanDone(wire, message);
        sending := false;
      } else if step == Stray {
        PlanDone(wire, message);
        return Stray;
      } else {
        next := current + c.length;
        PlanGoesOn(wire, message, c.Message(), LeftAfter(payload, next));
      }
    }
    return Sent;
  }

  /** After a write: what it counts as sent, and the next part of the payload as a message, if more is to be sent. */
  method Advance(c: Connection, payload: Option<seq<byte>>, remaining: int, current: int) returns (step: Outcome, left: int, position: int)
    requires c.Valid() && c.dataOffset + c.length <= c.buffer.Length
    requires payload.Some? ==> |payload.value| == remaining + current
    modifies c, c.buffer
    ensures c.Valid() && c.fragOffset == c.fragTotal == 0 && c.dataOffset + c.length <= c.buffer.Length
    ensures left == remaining - CountedAsSent(old(c.length), old(c.fragOffset)) && position == current + CountedAsSent(old(c.length), old(c.fragOffset))
    ensures step == if left <= 0 then Sent else if payload.None? || position < 0 then Stray else Unfinished
    ensures step != Unfinished ==> LeftAfter(payload, position) == []
    ensures step == Unfinished ==>
              && 0 < c.length <= left && CountedAsSent(c.length, c.fragOffset) == c.length
              && LeftAfter(payload, position) == c.Message() + LeftAfter(payload, position + c.length)
  {
    hide CountedAsSent, LeftAfter, Connection.Message;
    var dataSent := CountedAsSent(c.length, c.fragOffset);
    c.fragOffset := 0;
    c.fragTotal := 0;
    left, position := remaining - dataSent, current + dataSent;
    if left <= 0 {
      NothingLeft(payload, position);
      return Sent, left, position;
    }
    if payload.None? || position < 0 {
      NothingLeft(payload, position);
      return Stray, left, position;
    }
    step := Unfinished;
    StageFragment(c, payload.value, position);
    assert payload == Some(payload.value);
  }

  lemma PlanCut(wire: seq<byte>, before: seq<byte>, message: seq<byte>, left: seq<byte>)
    requires wire < before + message
    ensures wire <= Plan(before, message, left)
  {
  }

  lemma PlanDone(wire: seq<byte>, message: seq<byte>)
    ensures Plan(wire, message, []) == wire + message
  {
  }

  lemma PlanGoesOn(wire: seq<byte>, message: seq<byte>, next: seq<byte>, left: seq<byte>)
    ensures Plan(wire, message, next + left) == Plan(wire + message, next, left)
  {
    assert wire + message + (next + left) == wire + message + next + left;
  }

  lemma NothingLeft(payload: Option<seq<byte>>, n: int)
    requires payload.Some? ==> n < 0 || |payload.value| <= n
    ensures LeftAfter(payload, n) == []
  {
  }

  /** The payload from position n on, nothing when n is not a position in it. */
  function LeftAfter(payload: Option<seq<byte>>, n: int): seq<byte> {
    if payload.Some? && 0 <= n <= |payload.value| then payload.value[n..] else []
  }

  /** There is more to send, but not from inside the payload. */
  predicate RunsAstray(payload: Option<seq<byte>>, len: int, counted: int) {
    counted < len && (payload.None? || counted < 0)
  }

  /** The next part of the payload as a message of its own. */
  method StageFragment(c: Connection, payload: seq<byte>, current: nat)
    requires c.Valid() && current < |payload| && c.fragOffset == 0
    modifies c`dataOffset, c`length, c.buffer
    ensures c.dataOffset == 0 && 0 < c.length <= c.buffer.Length && current + c.length <= |payload|
    ensures CountedAsSent(c.length, c.fragOffset) == c.length
    ensures LeftAfter(Some(payload), current) == c.Message() + LeftAfter(Some(payload), current + c.length)
  {
    c.dataOffset := 0;
    c.length := if |payload| - current > c.buffer.Length then c.buffer.Length else |payload| - current;
    assert CountedAsSent(c.length, c.fragOffset) == c.length;
    LeftAfterPart(payload, current, c.length);
    var part := payload[current..current + c.length];
    ghost var b := c.buffer[..];
    hide LeftAfter, CountedAsSent, Splice;
    SpliceInFront(b, 0, part, c.length);
    assert b[|part|..c.length] == [] && part + [] == part;
    Copy(c.buffer, 0, part);
  }

  lemma LeftAfterPart(payload: seq<byte>, n: nat, k: nat)
    requires n + k <= |payload|
    ensures LeftAfter(Some(payload), n) == payload[n..n + k] + LeftAfter(Some(payload), n + k)
  {
  }
}
