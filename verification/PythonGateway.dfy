/** The Python gateway (gateway/gateway.py): it numbers and frames the orders of its users, and cuts the
    engine's answers out of the byte stream. */
module PythonGateway {
  import opened Types
  import opened Wire
  import opened OrderMessages
  import opened EndToEnd

  const MARKET_DATA_SNAPSHOT: byte := 83
  const EXECUTION_REPORT: byte := 69

  /** The bytes that unpacking a snapshot's payload, or a report's, takes. */
  const SNAPSHOT_PAYLOAD: nat := 178
  const EXECUTION_PAYLOAD: nat := 60

  /** No length field exceeds this: the listener sets no limit of its own. */
  const RECV_LIMIT: nat := 0xFFFF

  // ---------------------------------------------------------------- what the listener makes of a stream

  /** A snapshot too short to unpack raises, which ends the listener. */
  predicate Raises(msgType: byte, payload: Bytes) {
    msgType == MARKET_DATA_SNAPSHOT && |payload| < SNAPSHOT_PAYLOAD
  }

  /** A report too short to unpack is dropped, as is every other type. */
  predicate IsHandled(msgType: byte, payload: Bytes) {
    msgType == MARKET_DATA_SNAPSHOT || (msgType == EXECUTION_REPORT && |payload| >= EXECUTION_PAYLOAD)
  }

  function Handed(msgType: byte, payload: Bytes): seq<(byte, Bytes)> {
    if IsHandled(msgType, payload) then [(msgType, payload)] else []
  }

  /** The listener waits for more bytes, has ended, or loops forever on a zero length. */
  datatype Status = Waiting | Ended | Spinning

  datatype Heard = Heard(received: seq<(byte, Bytes)>, rest: Bytes, status: Status)

  function PayloadOf(b: Bytes): Bytes
    requires HEADER_SIZE <= |b| && MsgLen(b) <= |b|
  {
    if MsgLen(b) > HEADER_SIZE then b[HEADER_SIZE..MsgLen(b)] else []
  }

  function Listen(b: Bytes): Heard
    decreases |b|
  {
    if |b| < HEADER_SIZE || |b| < MsgLen(b) then Heard([], b, Waiting)
    else if Raises(MsgType(b), PayloadOf(b)) then Heard([], b, Ended)
    else if MsgLen(b) == 0 then Heard([], b, Spinning)
    else
      var more := Listen(b[MsgLen(b)..]);
      Heard(Handed(MsgType(b), PayloadOf(b)) + more.received, more.rest, more.status)
  }

  lemma {:induction false} ListenOnce(b: Bytes)
    ensures |b| < HEADER_SIZE || |b| < MsgLen(b) ==> Listen(b) == Heard([], b, Waiting)
    ensures HEADER_SIZE <= |b| && MsgLen(b) <= |b| ==>
      Listen(b) == if Raises(MsgType(b), PayloadOf(b)) then Heard([], b, Ended)
                   else if MsgLen(b) == 0 then Heard([], b, Spinning)
                   else var more := Listen(b[MsgLen(b)..]);
                        Heard(Handed(MsgType(b), PayloadOf(b)) + more.received, more.rest, more.status)
  {
  }

  /** What the bytes say, whatever they are: the type is byte 2, the length is in bytes 3 and 4.  Snapshots,
      type 83, are handed over, or end the listener when shorter than 178 bytes; reports, type 69, are handed
      over when they have 60; everything else is dropped. */
  lemma {:induction false} ListenIs(b: Bytes)
    ensures |b| < 5 ==> Listen(b) == Heard([], b, Waiting)
    ensures |b| >= 5 ==>
      var n := b[3] as int + 256 * b[4] as int;
      if |b| < n then Listen(b) == Heard([], b, Waiting)
      else
        var payload := if n > 5 then b[5..n] else [];
        if b[2] == 83 && |payload| < 178 then Listen(b) == Heard([], b, Ended)
        else if n == 0 then Listen(b) == Heard([], b, Spinning)
        else
          var more := Listen(b[n..]);
          var handed := b[2] == 83 || (b[2] == 69 && |payload| >= 60);
          Listen(b) == Heard((if handed then [(b[2], payload)] else []) + more.received, more.rest, more.status)
  {
    hide Listen, FromLE;
    ListenOnce(b);
    if |b| >= 5 {
      FromLEPair(b[3..5]);
    }
  }

  /** A packet of the engine, and whatever follows it in the stream. */
  lemma {:induction false} ListenToFrame(msgType: byte, payload: Bytes, tail: Bytes)
    requires 5 + |payload| < 0x1_0000
    ensures var more := Listen(tail);
      Listen(Frame(msgType, payload) + tail)
      == if msgType == 83 && |payload| < 178 then Heard([], Frame(msgType, payload) + tail, Ended)
         else if msgType == 83 || (msgType == 69 && |payload| >= 60)
         then Heard([(msgType, payload)] + more.received, more.rest, more.status)
         else more
  {
    hide Listen, Frame, FromLE;
    var b, n := Frame(msgType, payload) + tail, 5 + |payload|;
    FrameBytes(msgType, payload);
    assert b[2] == msgType && b[3] == n % 256 && b[4] == n / 256;
    assert b[5..n] == payload && b[n..] == tail;
    ListenIs(b);
    assert [] + Listen(tail).received == Listen(tail).received;
  }

  lemma {:induction false} LongerHeader(a: Bytes, b: Bytes)
    requires HEADER_SIZE <= |a| && MsgLen(a) <= |a|
    ensures MsgLen(a + b) == MsgLen(a) && MsgType(a + b) == MsgType(a) && PayloadOf(a + b) == PayloadOf(a)
    ensures (a + b)[MsgLen(a)..] == a[MsgLen(a)..] + b
  {
    hide FromLE;
    assert (a + b)[3..5] == a[3..5];
  }

  /** The listener does not depend on how the stream was cut into reads: what it kept of one read, together
      with the next, is heard as both at once; and once it has ended or spins, later bytes change nothing. */
  lemma {:induction false} ListenInTwo(a: Bytes, b: Bytes)
    ensures var first, both := Listen(a), Listen(a + b);
      var second := Listen(first.rest + b);
      if first.status == Waiting
      then both == Heard(first.received + second.received, second.rest, second.status)
      else both == Heard(first.received, first.rest + b, first.status)
    decreases |a|
  {
    hide Listen, MsgLen, Raises, Handed, PayloadOf, MsgType;
    ListenOnce(a);
    ListenOnce(a + b);
    if HEADER_SIZE <= |a| && MsgLen(a) <= |a| {
      LongerHeader(a, b);
      if !Raises(MsgType(a), PayloadOf(a)) && MsgLen(a) != 0 {
        var rest := a[MsgLen(a)..];
        ListenInTwo(rest, b);
        SeqAssociates(Handed(MsgType(a), PayloadOf(a)), Listen(rest).received, Listen(Listen(rest).rest + b).received);
      }
    } else {
      assert [] + Listen(a + b).received == Listen(a + b).received;
    }
  }

  /** Type and payload of the packets the gateway handles; it drops the others. */
  function Payloads(packets: seq<Bytes>): seq<(byte, Bytes)>
    requires forall i :: 0 <= i < |packets| ==> |packets[i]| >= HEADER_SIZE
  {
    if packets == [] then []
    else Handed(MsgType(packets[0]), packets[0][HEADER_SIZE..]) + Payloads(packets[1..])
  }

  predicate AnyRaises(packets: seq<Bytes>)
    requires forall i :: 0 <= i < |packets| ==> |packets[i]| >= HEADER_SIZE
  {
    exists i :: 0 <= i < |packets| && Raises(MsgType(packets[i]), packets[i][HEADER_SIZE..])
  }

  /** On a stream of packets with lengths of at least a header, and snapshots of full size, the listener
      hands over exactly the handled packets' payloads and keeps exactly the unfinished rest. */
  lemma {:induction false} ListenIsParse(b: Bytes)
    ensures forall i :: 0 <= i < |Parse(RECV_LIMIT, b).packets| ==> |Parse(RECV_LIMIT, b).packets[i]| >= HEADER_SIZE
    ensures var parsed := Parse(RECV_LIMIT, b);
      !Stuck(RECV_LIMIT, parsed.rest) && !AnyRaises(parsed.packets) ==>
        Listen(b) == Heard(Payloads(parsed.packets), parsed.rest, Waiting)
    decreases |b|
  {
    hide Parse, MsgLen, Raises, Handed, MsgType, Listen;
    PacketsHaveHeaders(RECV_LIMIT, b);
    ParseOne(RECV_LIMIT, b);
    ListenOnce(b);
    if |b| >= HEADER_SIZE {
      MsgLenFits(b);
    }
    if HasPacket(RECV_LIMIT, b) {
      var p, more := b[..MsgLen(b)], Parse(RECV_LIMIT, b[MsgLen(b)..]);
      ListenIsParse(b[MsgLen(b)..]);
      FirstPacket(b, p);
      assert ([p] + more.packets)[1..] == more.packets;
      if !AnyRaises([p] + more.packets) {
        NoneRaises(p, more.packets);
      }
    }
  }

  lemma {:induction false} NoneRaises(p: Bytes, packets: seq<Bytes>)
    requires |p| >= HEADER_SIZE && forall i :: 0 <= i < |packets| ==> |packets[i]| >= HEADER_SIZE
    requires forall i :: 0 <= i < |[p] + packets| ==> |([p] + packets)[i]| >= HEADER_SIZE
    requires !AnyRaises([p] + packets)
    ensures !Raises(MsgType(p), p[HEADER_SIZE..]) && !AnyRaises(packets)
  {
    hide Raises, MsgType;
    var all := [p] + packets;
    assert all[0] == p;
    assert forall i :: 0 <= i < |packets| ==> packets[i] == all[i + 1];
  }

  lemma {:induction false} FirstPacket(b: Bytes, p: Bytes)
    requires HEADER_SIZE <= |b| && HEADER_SIZE <= MsgLen(b) <= |b| && p == b[..MsgLen(b)]
    ensures MsgType(p) == MsgType(b) && p[HEADER_SIZE..] == PayloadOf(b)
  {
    hide FromLE;
  }

  lemma {:induction false} PacketsHaveHeaders(maxLen: nat, b: Bytes)
    ensures forall i :: 0 <= i < |Parse(maxLen, b).packets| ==> |Parse(maxLen, b).packets[i]| >= HEADER_SIZE
    decreases |b|
  {
    hide MsgLen;
    if HasPacket(maxLen, b) {
      PacketsHaveHeaders(maxLen, b[MsgLen(b)..]);
    }
  }

  lemma {:induction false} MsgLenFits(b: Bytes)
    requires |b| >= HEADER_SIZE
    ensures MsgLen(b) <= RECV_LIMIT
  {
    FromLEBound(b[3..5]);
    Pow256Values();
  }

  // ---------------------------------------------------------------- the gateway

  lemma {:induction false} NothingFramed()
    ensures Concat(Frames([])) == []
  {
  }

  lemma {:induction false} FramesSnoc(forms: seq<OrderForm>, i: nat)
    requires i < |forms| && forall k :: 0 <= k < |forms| ==> |forms[k].priceBits| == 8
    ensures Concat(Frames(forms[..i + 1])) == Concat(Frames(forms[..i])) + OrderFrame(forms[i])
  {
    hide OrderFrame, Concat;
    ConcatSnoc(Frames(forms[..i]), OrderFrame(forms[i]));
    assert Frames(forms[..i + 1]) == Frames(forms[..i]) + [OrderFrame(forms[i])];
  }

  class GatewayService {
    var orderIdCounter: nat
    /** Everything sent to the engine, and the unconsumed bytes received from it. */
    var wire: Bytes
    var buffer: Bytes
    /** Type and payload of each packet that a handler passed on. */
    var received: seq<(byte, Bytes)>

    /** Connecting sends the log-in. */
    constructor ()
      ensures orderIdCounter == 0 && wire == LoginFrame() && buffer == [] && received == []
    {
      orderIdCounter, wire, buffer, received := 0, LoginFrame(), [], [];
    }

    method SendToOme(msgType: byte, payload: Bytes)
      requires HEADER_SIZE + |payload| < 0x1_0000
      modifies this`wire
      ensures wire == old(wire) + Frame(msgType, payload)
    {
      var msgLen := HEADER_SIZE + |payload|;
      var header := ToLE(0, 2) + [msgType] + ToLE(msgLen, 2);
      SeqAssociates(old(wire), header, payload);
      wire := wire + (header + payload);
    }

    /** Number the order with the next identifier and send it. */
    method PlaceOrder(userId: u64, symbol: Bytes, buy: bool, market: bool, priceBits: Bytes, quantity: u64)
      returns (orderId: u64)
      requires |priceBits| == 8 && orderIdCounter + 1 < WRAP
      modifies this`orderIdCounter, this`wire
      ensures orderId == orderIdCounter == old(orderIdCounter) + 1
      ensures wire == old(wire) + OrderFrame(OrderForm(orderId, userId, symbol, buy, market, priceBits, quantity))
    {
      orderIdCounter := orderIdCounter + 1;
      orderId := orderIdCounter;
      SendToOme(NEW_ORDER, OrderPayload(OrderForm(orderId, userId, symbol, buy, market, priceBits, quantity)));
    }

    /** Send a cancel for an order of the given number. */
    method CancelOrder(orderId: u64, userId: u64, symbol: Bytes, buy: bool)
      modifies this`wire
      ensures wire == old(wire) + CancelFrame(orderId, userId, symbol, buy)
    {
      SendToOme(ORDER_CANCEL, CancelPayload(orderId, userId, symbol, buy));
    }

    /** Call after call: the orders go out in this order, numbered upward without a gap. */
    method PlaceOrders(requests: seq<Request>)
      requires Packable(requests) && orderIdCounter + |requests| < WRAP
      modifies this`orderIdCounter, this`wire
      ensures orderIdCounter == old(orderIdCounter) + |requests|
      ensures var forms := FormsOf(requests, old(orderIdCounter));
        Numbered(forms) && wire == old(wire) + Concat(Frames(forms))
    {
      hide OrderFrame, Frames, Concat;
      ghost var counter := orderIdCounter;
      ghost var forms := FormsOf(requests, counter);
      FormsAreNumbered(requests, counter);
      NothingFramed();
      assert wire + [] == wire;
      for i := 0 to |requests|
        invariant orderIdCounter == counter + i
        invariant wire == old(wire) + Concat(Frames(forms[..i]))
      {
        var r := requests[i];
        var orderId := PlaceOrder(r.userId, r.symbol, r.buy, r.market, r.priceBits, r.quantity);
        FramesSnoc(forms, i);
        SeqAssociates(old(wire), Concat(Frames(forms[..i])), OrderFrame(forms[i]));
      }
      assert forms[..|requests|] == forms;
    }

    /** One pass of the listener: append what was read, hand over the payloads of the packets that are now
        complete, and keep the rest.  A zero length is consumed by consuming nothing: where the source then
        loops forever, this returns Spinning. */
    method ReceiveFromOme(data: Bytes) returns (status: Status)
      modifies this`buffer, this`received
      ensures data == [] ==> status == Ended && buffer == old(buffer) && received == old(received)
      ensures data != [] ==>
        var heard := Listen(old(buffer) + data);
        status == heard.status && buffer == heard.rest && received == old(received) + heard.received
    {
      hide Listen, IsHandled, Raises, MsgLen;
      if data == [] {
        return Ended;
      }
      buffer := buffer + data;
      ghost var goal, seen := Listen(buffer), [];
      assert received + [] == received;
      assert [] + goal.received == goal.received;
      while |buffer| >= HEADER_SIZE
        invariant var heard := Listen(buffer); goal == Heard(seen + heard.received, heard.rest, heard.status)
        invariant received == old(received) + seen
        decreases |buffer|
      {
        ListenOnce(buffer);
        var msgType, msgLen := MsgType(buffer), MsgLen(buffer);
        if |buffer| < msgLen {
          break;
        }
        var payload := if msgLen > HEADER_SIZE then buffer[HEADER_SIZE..msgLen] else [];
        if Raises(msgType, payload) {
          assert seen + [] == seen;
          return Ended;
        }
        if msgLen == 0 {
          assert seen + [] == seen;
          return Spinning;
        }
        SeqAssociates(seen, Handed(msgType, payload), Listen(buffer[msgLen..]).received);
        if IsHandled(msgType, payload) {
          received := received + [(msgType, payload)];
          SeqAssociates(old(received), seen, [(msgType, payload)]);
        } else {
          assert seen + [] == seen;
        }
        seen := seen + Handed(msgType, payload);
        buffer := buffer[msgLen..];
      }
      ListenOnce(buffer);
      assert seen + [] == seen;
      return Waiting;
    }
  }
}
