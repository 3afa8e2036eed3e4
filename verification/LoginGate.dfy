/** What a connection can do before it logs in: nothing.  Whatever it sends, in whatever reads, the process does
    to engine, log, senders and other sessions what it would do if those reads had never come. */
module LoginGate {
  import opened Types
  import opened ReferenceEngine
  import opened ReferenceRuns
  import opened Wire
  import opened OrderMessages
  import opened GatewayModel
  import opened GatewayRuns

  /** The two states differ in nothing but the session of one connection. */
  predicate SameButFor(a: Gateway, b: Gateway, fd: int) {
    && a.venue == b.venue && a.performed == b.performed && a.logOpen == b.logOpen && a.log == b.log
    && a.sent == b.sent && a.crashed == b.crashed && a.sessions - {fd} == b.sessions - {fd}
  }

  lemma {:induction false} SameTrans(a: Gateway, b: Gateway, c: Gateway, fd: int)
    requires SameButFor(a, b, fd) && SameButFor(b, c, fd)
    ensures SameButFor(a, c, fd)
  {
  }

  lemma {:induction false} OtherSession(a: Gateway, b: Gateway, fd: int, other: int)
    requires SameButFor(a, b, fd) && other != fd
    ensures SessionOf(a, other) == SessionOf(b, other) && (other in a.sessions <==> other in b.sessions)
  {
    assert other in a.sessions - {fd} <==> other in a.sessions;
    assert other in b.sessions - {fd} <==> other in b.sessions;
    if other in a.sessions {
      assert (a.sessions - {fd})[other] == (b.sessions - {fd})[other];
    }
  }

  lemma {:induction false} SetOther(a: map<int, Session>, b: map<int, Session>, fd: int, other: int, s: Session)
    requires a - {fd} == b - {fd} && other != fd
    ensures a[other := s] - {fd} == b[other := s] - {fd}
    ensures (fd in a <==> fd in a[other := s]) && (fd in a ==> a[other := s][fd] == a[fd])
  {
    assert a[other := s] - {fd} == (a - {fd})[other := s];
    assert b[other := s] - {fd} == (b - {fd})[other := s];
  }

  lemma {:induction false} SetOwn(a: map<int, Session>, fd: int, s: Session)
    ensures a[fd := s] - {fd} == a - {fd}
  {
  }

  // ---------------------------------------------------------------- the other connections

  lemma {:induction false} DeliverToOther(a: Gateway, b: Gateway, fd: int, other: int, p: Bytes, priceOf: PriceReader)
    requires AllOpen(a.venue) && SameButFor(a, b, fd) && other != fd
    ensures SameButFor(Deliver(a, other, p, priceOf), Deliver(b, other, p, priceOf), fd)
    ensures SessionOf(Deliver(a, other, p, priceOf), fd) == SessionOf(a, fd)
  {
    hide Run, PacketEffect, PacketReports, Fatal, Admissible, WellSized, AllOpen, To;
    OtherSession(a, b, fd, other);
    var s := SessionOf(a, other);
    SetOther(a.sessions, b.sessions, fd, other, s.(loggedIn := PacketEffect(s.loggedIn, p, priceOf).loggedIn));
  }

  lemma {:induction false} WriteToOther(a: Gateway, b: Gateway, fd: int, other: int, buffer: Bytes)
    requires SameButFor(a, b, fd) && other != fd
    ensures SameButFor(WithBuffer(a, other, buffer), WithBuffer(b, other, buffer), fd)
    ensures SessionOf(WithBuffer(a, other, buffer), fd) == SessionOf(a, fd)
  {
    OtherSession(a, b, fd, other);
    SetOther(a.sessions, b.sessions, fd, other, SessionOf(a, other).(buffer := buffer));
  }

  lemma {:induction false} DispatchToOther(a: Gateway, b: Gateway, fd: int, other: int, priceOf: PriceReader)
    requires AllOpen(a.venue) && SameButFor(a, b, fd) && other != fd
    ensures SameButFor(Dispatch(a, other, priceOf), Dispatch(b, other, priceOf), fd)
    ensures SessionOf(Dispatch(a, other, priceOf), fd) == SessionOf(a, fd)
    decreases |SessionOf(a, other).buffer|
  {
    hide MsgLen, Deliver, SameButFor, WithBuffer, SessionOf, AllOpen;
    SameParts(a, b, fd);
    OtherSession(a, b, fd, other);
    var buffer := SessionOf(a, other).buffer;
    if !a.crashed && HasPacket(MAX_PACKET, buffer) {
      var p, rest := buffer[..MsgLen(buffer)], buffer[MsgLen(buffer)..];
      DeliverToOther(a, b, fd, other, p, priceOf);
      var a', b' := Deliver(a, other, p, priceOf), Deliver(b, other, p, priceOf);
      SameParts(a', b', fd);
      if !a'.crashed {
        WriteToOther(a', b', fd, other, rest);
        WithBufferIs(a', other, rest);
        DispatchToOther(WithBuffer(a', other, rest), WithBuffer(b', other, rest), fd, other, priceOf);
      }
    }
  }

  lemma {:induction false} SameParts(a: Gateway, b: Gateway, fd: int)
    requires SameButFor(a, b, fd)
    ensures a.crashed == b.crashed && a.venue == b.venue
  {
  }

  lemma {:induction false} HappenToOther(a: Gateway, b: Gateway, fd: int, event: Event, priceOf: PriceReader)
    requires AllOpen(a.venue) && SameButFor(a, b, fd) && event.fd != fd
    ensures SameButFor(Happen(a, event, priceOf), Happen(b, event, priceOf), fd)
    ensures SessionOf(Happen(a, event, priceOf), fd) == SessionOf(a, fd)
  {
    hide Dispatch;
    match event
    case Opened(other) => SetOther(a.sessions, b.sessions, fd, other, NEW_SESSION);
    case Closed(other) =>
      assert a.sessions - {other} - {fd} == a.sessions - {fd} - {other};
      assert b.sessions - {other} - {fd} == b.sessions - {fd} - {other};
    case Read(other, data) =>
      OtherSession(a, b, fd, other);
      var buffer := SessionOf(a, other).buffer + data;
      WriteToOther(a, b, fd, other, buffer);
      DispatchToOther(WithBuffer(a, other, buffer), WithBuffer(b, other, buffer), fd, other, priceOf);
  }

  // ---------------------------------------------------------------- the connection itself

  /** No packet is a log-in, type 76 in byte 2. */
  predicate NoLogin(packets: seq<Bytes>) {
    forall i :: 0 <= i < |packets| ==> |packets[i]| > 2 && packets[i][2] != 76
  }

  /** Before a log-in every packet but a log-in leaves all as it was. */
  lemma {:induction false} LoggedOutPacket(g: Gateway, fd: int, p: Bytes, priceOf: PriceReader)
    requires AllOpen(g.venue) && !SessionOf(g, fd).loggedIn && |p| >= HEADER_SIZE && p[2] != 76
    ensures var g' := Deliver(g, fd, p, priceOf);
      && g'.venue == g.venue && g'.performed == g.performed && g'.log == g.log && g'.sent == g.sent
      && g'.crashed == g.crashed && SessionOf(g', fd) == SessionOf(g, fd) && SameButFor(g', g, fd)
  {
    hide Run;
    RunOne(g.venue, []);
    ToConcat(fd, [], []);
    assert g.log + [] == g.log && g.sent + [] == g.sent && g.performed + [] == g.performed;
    SetOwn(g.sessions, fd, SessionOf(g, fd));
  }

  lemma {:induction false} LoggedOutDispatch(g: Gateway, fd: int, priceOf: PriceReader)
    requires AllOpen(g.venue) && !g.crashed && !SessionOf(g, fd).loggedIn
    requires NoLogin(Parse(MAX_PACKET, SessionOf(g, fd).buffer).packets)
    ensures var g' := Dispatch(g, fd, priceOf);
      SameButFor(g', g, fd) && SessionOf(g', fd) == Session(false, Parse(MAX_PACKET, SessionOf(g, fd).buffer).rest)
    decreases |SessionOf(g, fd).buffer|
  {
    hide MsgLen, Deliver, SameButFor, WithBuffer, SessionOf, AllOpen, Parse;
    var buffer := SessionOf(g, fd).buffer;
    ParseOne(MAX_PACKET, buffer);
    if HasPacket(MAX_PACKET, buffer) {
      var p, rest := buffer[..MsgLen(buffer)], buffer[MsgLen(buffer)..];
      var packets, more := Parse(MAX_PACKET, buffer).packets, Parse(MAX_PACKET, rest).packets;
      assert packets == [p] + more && packets[0] == p;
      assert forall i :: 0 <= i < |more| ==> more[i] == packets[i + 1];
      LoggedOutPacket(g, fd, p, priceOf);
      var next := Deliver(g, fd, p, priceOf);
      WithBufferIs(next, fd, rest);
      WriteOwn(next, fd, rest);
      LoggedOutDispatch(WithBuffer(next, fd, rest), fd, priceOf);
      SameTrans(WithBuffer(next, fd, rest), next, g, fd);
      SameTrans(Dispatch(WithBuffer(next, fd, rest), fd, priceOf), WithBuffer(next, fd, rest), g, fd);
    } else {
      SameSelf(g, fd);
    }
  }

  lemma {:induction false} SameSelf(g: Gateway, fd: int)
    ensures SameButFor(g, g, fd)
  {
  }

  lemma {:induction false} WriteOwn(g: Gateway, fd: int, buffer: Bytes)
    ensures SameButFor(WithBuffer(g, fd, buffer), g, fd)
  {
    SetOwn(g.sessions, fd, SessionOf(g, fd).(buffer := buffer));
  }

  // ---------------------------------------------------------------- whole lives

  /** All that is read from a connection, as one stream. */
  function BytesFrom(events: seq<Event>, fd: int): Bytes {
    if events == [] then []
    else (if events[0].Read? && events[0].fd == fd then events[0].data else []) + BytesFrom(events[1..], fd)
  }

  /** The events of all other connections. */
  function Without(events: seq<Event>, fd: int): seq<Event> {
    if events == [] then [] else (if events[0].fd == fd then [] else [events[0]]) + Without(events[1..], fd)
  }

  /** The connection is neither opened nor closed. */
  predicate StaysOpen(events: seq<Event>, fd: int) {
    forall i :: 0 <= i < |events| && events[i].fd == fd ==> events[i].Read?
  }

  lemma {:induction false} SilentRead(a: Gateway, fd: int, data: Bytes, more: Bytes, priceOf: PriceReader)
    requires AllOpen(a.venue) && !a.crashed && !SessionOf(a, fd).loggedIn
    requires NoLogin(Parse(MAX_PACKET, SessionOf(a, fd).buffer + (data + more)).packets)
    ensures var a' := Receive(a, fd, data, priceOf);
      && SameButFor(a', a, fd) && !SessionOf(a', fd).loggedIn
      && NoLogin(Parse(MAX_PACKET, SessionOf(a', fd).buffer + more).packets)
  {
    hide Parse, Dispatch, SameButFor, WithBuffer, SessionOf, Appended, AllOpen;
    var buffer := SessionOf(a, fd).buffer;
    SeqAssociates(buffer, data, more);
    ParseInTwo(MAX_PACKET, buffer + data, more);
    var first := Parse(MAX_PACKET, buffer + data);
    NoLoginParts(first.packets, Parse(MAX_PACKET, first.rest + more).packets);
    AppendedIs(a, fd, data);
    AppendOwn(a, fd, data);
    LoggedOutDispatch(Appended(a, fd, data), fd, priceOf);
    SameTrans(Dispatch(Appended(a, fd, data), fd, priceOf), Appended(a, fd, data), a, fd);
  }

  lemma {:induction false} AppendOwn(g: Gateway, fd: int, more: Bytes)
    ensures SameButFor(Appended(g, fd, more), g, fd)
  {
    WriteOwn(g, fd, SessionOf(g, fd).buffer + more);
  }

  lemma {:induction false} NoLoginParts(a: seq<Bytes>, b: seq<Bytes>)
    requires NoLogin(a + b)
    ensures NoLogin(a) && NoLogin(b)
  {
    assert forall i :: 0 <= i < |a| ==> a[i] == (a + b)[i];
    assert forall i :: 0 <= i < |b| ==> b[i] == (a + b)[|a| + i];
  }

  /** As long as what a logged-out connection sends contains no log-in, its reads might as well not come. */
  lemma {:induction false} LoggedOutIsSilent(a: Gateway, b: Gateway, fd: int, events: seq<Event>, priceOf: PriceReader)
    requires AllOpen(a.venue) && SameButFor(a, b, fd) && !SessionOf(a, fd).loggedIn && StaysOpen(events, fd)
    requires NoLogin(Parse(MAX_PACKET, SessionOf(a, fd).buffer + BytesFrom(events, fd)).packets)
    ensures SameButFor(After(a, events, priceOf), After(b, Without(events, fd), priceOf), fd)
    ensures !SessionOf(After(a, events, priceOf), fd).loggedIn
    decreases |events|
  {
    hide Parse, SameButFor, SessionOf, AllOpen, Happen, Receive;
    SameParts(a, b, fd);
    if a.crashed {
      CrashedStays(a, events, priceOf);
      CrashedStays(b, Without(events, fd), priceOf);
    } else if events != [] {
      var event, rest := events[0], events[1..];
      StillOpen(events, fd);
      if event.fd == fd {
        assert [] + Without(rest, fd) == Without(rest, fd);
        SilentRead(a, fd, event.data, BytesFrom(rest, fd), priceOf);
        ReadIs(a, fd, event.data, priceOf);
        var a' := Receive(a, fd, event.data, priceOf);
        SameTrans(a', a, b, fd);
        SameParts(a', a, fd);
        LoggedOutIsSilent(a', b, fd, rest, priceOf);
      } else {
        assert [] + BytesFrom(rest, fd) == BytesFrom(rest, fd);
        HappenToOther(a, b, fd, event, priceOf);
        assert ([event] + Without(rest, fd))[1..] == Without(rest, fd);
        LoggedOutIsSilent(Happen(a, event, priceOf), Happen(b, event, priceOf), fd, rest, priceOf);
      }
    }
  }

  lemma {:induction false} StillOpen(events: seq<Event>, fd: int)
    requires events != [] && StaysOpen(events, fd)
    ensures StaysOpen(events[1..], fd) && (events[0].fd == fd ==> events[0].Read?)
  {
  }

  lemma {:induction false} ReadIs(g: Gateway, fd: int, data: Bytes, priceOf: PriceReader)
    requires AllOpen(g.venue) && !g.crashed
    ensures Happen(g, Read(fd, data), priceOf) == Receive(g, fd, data, priceOf)
  {
    hide Receive;
  }

  /** A new connection is logged out with nothing kept of an earlier one; and whatever it then sends, cut into
      reads anyhow among the events of all others, has no effect on engine, log, reports or other sessions
      unless a log-in is among its packets. */
  lemma {:induction false} NewConnectionIsSilent(g: Gateway, fd: int, events: seq<Event>, priceOf: PriceReader)
    requires AllOpen(g.venue) && !g.crashed && StaysOpen(events, fd)
    requires NoLogin(Parse(MAX_PACKET, BytesFrom(events, fd)).packets)
    ensures Happen(g, Opened(fd), priceOf).sessions == g.sessions[fd := Session(false, [])]
    ensures var with := After(Happen(g, Opened(fd), priceOf), events, priceOf);
      var without := After(g, Without(events, fd), priceOf);
      && with.venue == without.venue && with.performed == without.performed && with.log == without.log
      && with.sent == without.sent && with.crashed == without.crashed
      && with.sessions - {fd} == without.sessions - {fd} && !SessionOf(with, fd).loggedIn
  {
    hide Parse, After;
    var begun := Happen(g, Opened(fd), priceOf);
    SetOwn(g.sessions, fd, Session(false, []));
    assert [] + BytesFrom(events, fd) == BytesFrom(events, fd);
    LoggedOutIsSilent(begun, g, fd, events, priceOf);
  }
}
