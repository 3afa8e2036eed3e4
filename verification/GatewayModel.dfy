/** What the C++ gateway (src/client_gateway.cpp) does to its sessions, the engine, the event log and the
    senders of orders, on values: packet by packet, read by read, and over whole lives of the process. */
module GatewayModel {
  import opened Types
  import opened NaiveBook
  import opened SweepLaws
  import opened ReferenceEngine
  import opened ReferenceRuns
  import opened Wire
  import opened OrderMessages

  datatype Session = Session(loggedIn: bool, buffer: Bytes)

  const NEW_SESSION := Session(false, [])

  // ---------------------------------------------------------------- reports

  datatype Report = Report(orderId: OrderID, userId: UserID, side: byte, price: Price, quantity: Quantity,
                           filledQuantity: nat, status: nat)

  function SideByte(side: Side): byte {
    if side.Buy? then 0 else 1
  }

  function TakerReport(o: Order, trades: seq<Trade>, k: nat): Report
    requires k < |trades|
  {
    var filled := SumQuantity(trades[..k + 1]);
    Report(o.id, o.userId, SideByte(o.side), trades[k].price, trades[k].quantity, filled,
           if filled >= o.quantity then 2 else 1)
  }

  /** After each trade a report on the maker's order goes down the same connection.  It carries the maker's
      identifier as order and as user, status 2, and as fill what the taker's order has in the book that was
      looked up, or the trade's quantity when it does not rest there. */
  function MakerReport(o: Order, t: Trade, found: Book): Report {
    var maker := if o.side.Buy? then t.sellOrderId else t.buyOrderId;
    Report(maker, maker, SideByte(o.side.Opposite()), t.price, t.quantity,
           if Get(found, o.id).Some? then Get(found, o.id).value.filled else t.quantity, 2)
  }

  /** The reports on the first n trades: for each one to the sender, with the exact running fill, status 2
      once that completes the order and 1 before, and one on the maker. */
  function TradeReports(o: Order, trades: seq<Trade>, found: Book, n: nat): (r: seq<Report>)
    requires n <= |trades|
    ensures |r| == 2 * n
  {
    if n == 0 then []
    else TradeReports(o, trades, found, n - 1) + [TakerReport(o, trades, n - 1), MakerReport(o, trades[n - 1], found)]
  }

  /** The reports on an order: a single one with status 0 when nothing traded; just the first when the book
      is not found again. */
  function OrderReports(o: Order, trades: seq<Trade>, found: Option<Book>): seq<Report> {
    if trades == [] then [Report(o.id, o.userId, SideByte(o.side), o.price, o.quantity, 0, 0)]
    else if found.None? then [TakerReport(o, trades, 0)]
    else TradeReports(o, trades, found.value, |trades|)
  }

  lemma {:induction false} TradeReportsAt(o: Order, trades: seq<Trade>, found: Book, n: nat, k: nat)
    requires k < n <= |trades|
    ensures TradeReports(o, trades, found, n)[2 * k] == TakerReport(o, trades, k)
    ensures TradeReports(o, trades, found, n)[2 * k + 1] == MakerReport(o, trades[k], found)
  {
    hide TakerReport, MakerReport;
    if k < n - 1 {
      TradeReportsAt(o, trades, found, n - 1, k);
    }
  }

  /** The report for a cancel: the cancelled order as it stood, with status 3, or a rejection, status 4. */
  function CancelReport(p: Bytes, cancelled: Option<Order>): Report
    requires |p| >= ORDER_CANCEL_SIZE
  {
    match cancelled
    case Some(o) => Report(U64At(p, 5), U64At(p, 13), SideByte(o.side), o.price, o.quantity, o.filled, 3)
    case None => Report(U64At(p, 5), U64At(p, 13), p[31], 0.0, 0, 0, 4)
  }

  function To(fd: int, reports: seq<Report>): seq<(int, Report)> {
    seq(|reports|, k requires 0 <= k < |reports| => (fd, reports[k]))
  }

  lemma {:induction false} ToConcat(fd: int, a: seq<Report>, b: seq<Report>)
    ensures To(fd, a + b) == To(fd, a) + To(fd, b) && To(fd, []) == []
  {
  }

  lemma {:induction false} ToOne(fd: int, report: Report)
    ensures To(fd, [report]) == [(fd, report)]
  {
  }

  lemma {:induction false} ToTwo(fd: int, before: seq<Report>, a: Report, b: Report)
    ensures To(fd, before + [a, b]) == To(fd, before) + [(fd, a)] + [(fd, b)]
  {
  }

  // ---------------------------------------------------------------- the look-up of the book

  /** After each trade of an order the gateway looks its book up once more, by the C string at the packet's
      symbol, and uses the result unchecked.  The look-up finds a book exactly when that string, read inside
      the packet, is the key of one. */
  function LookedUp(m: Venue, p: Bytes): Option<Book>
    requires |p| >= NEW_ORDER_SIZE
  {
    BookNamed(m.books, CString(p))
  }

  function BookNamed(books: map<Symbol, Book>, name: Option<Bytes>): Option<Book> {
    if name.Some? && name.value in books then Some(books[name.value]) else None
  }

  /** The packet is an order that trades although that look-up finds nothing: the process ends there. */
  predicate Fatal(m: Venue, loggedIn: bool, p: Bytes, priceOf: PriceReader)
    requires AllOpen(m)
  {
    && loggedIn && WellSized(p) && MsgType(p) == NEW_ORDER
    && var (m', trades) := NewOrder(m, DecodeOrder(p, priceOf));
       trades != [] && LookedUp(m', p).None?
  }

  /** The reports one packet of a session causes when the engine stands for m. */
  function PacketReports(m: Venue, loggedIn: bool, p: Bytes, priceOf: PriceReader): seq<Report>
    requires AllOpen(m)
  {
    if !loggedIn || !WellSized(p) then []
    else if MsgType(p) == NEW_ORDER then
      var o := DecodeOrder(p, priceOf);
      var (m', trades) := NewOrder(m, o);
      OrderReports(o, trades, LookedUp(m', p))
    else if MsgType(p) == ORDER_CANCEL then
      var op := DecodeCancel(p);
      [CancelReport(p, CancelOrder(m, op.id, op.symbol).1)]
    else []
  }

  // ---------------------------------------------------------------- the gateway and its engine

  /** The state of the process: the engine, the sessions, the event log's file, what was sent to the
      senders of orders, every operation made on the engine so far, whether the process ended on a null
      book, and whether something happened that lies outside the model (a packet shorter than its struct,
      or an order coming to rest under an identifier that rests already). */
  datatype Gateway = Gateway(venue: Venue, sessions: map<int, Session>, logOpen: bool, log: Bytes,
                             sent: seq<(int, Report)>, performed: seq<Op>, crashed: bool, outside: bool)

  function SessionOf(g: Gateway, fd: int): Session {
    if fd in g.sessions then g.sessions[fd] else NEW_SESSION
  }

  function WithBuffer(g: Gateway, fd: int, buffer: Bytes): Gateway {
    g.(sessions := g.sessions[fd := SessionOf(g, fd).(buffer := buffer)])
  }

  function Appended(g: Gateway, fd: int, more: Bytes): Gateway {
    WithBuffer(g, fd, SessionOf(g, fd).buffer + more)
  }

  /** One packet of a session. */
  function Deliver(g: Gateway, fd: int, p: Bytes, priceOf: PriceReader): (r: Gateway)
    requires AllOpen(g.venue)
    ensures AllOpen(r.venue)
  {
    var s := SessionOf(g, fd);
    var e := PacketEffect(s.loggedIn, p, priceOf);
    Gateway(Run(g.venue, e.ops), g.sessions[fd := s.(loggedIn := e.loggedIn)], g.logOpen,
            g.log + (if g.logOpen then e.log else []),
            g.sent + To(fd, PacketReports(g.venue, s.loggedIn, p, priceOf)),
            g.performed + e.ops,
            g.crashed || Fatal(g.venue, s.loggedIn, p, priceOf),
            g.outside || !WellSized(p) || !Admissible(g.venue, e.ops))
  }

  /** Packet after packet off the front of the session's buffer, as long as whole ones are there and the
      process lives. */
  function Dispatch(g: Gateway, fd: int, priceOf: PriceReader): (r: Gateway)
    requires AllOpen(g.venue)
    ensures AllOpen(r.venue)
    decreases |SessionOf(g, fd).buffer|
  {
    var buffer := SessionOf(g, fd).buffer;
    if g.crashed || !HasPacket(MAX_PACKET, buffer) then g
    else
      var len := MsgLen(buffer);
      var next := Deliver(g, fd, buffer[..len], priceOf);
      if next.crashed then next else Dispatch(WithBuffer(next, fd, buffer[len..]), fd, priceOf)
  }

  /** One read. */
  function Receive(g: Gateway, fd: int, data: Bytes, priceOf: PriceReader): (r: Gateway)
    requires AllOpen(g.venue)
    ensures AllOpen(r.venue)
  {
    Dispatch(Appended(g, fd, data), fd, priceOf)
  }

  datatype Event = Opened(fd: int) | Closed(fd: int) | Read(fd: int, data: Bytes)

  function Happen(g: Gateway, event: Event, priceOf: PriceReader): (r: Gateway)
    requires AllOpen(g.venue)
    ensures AllOpen(r.venue)
  {
    if g.crashed then g
    else match event
      case Opened(fd) => g.(sessions := g.sessions[fd := NEW_SESSION])
      case Closed(fd) => g.(sessions := g.sessions - {fd})
      case Read(fd, data) => Receive(g, fd, data, priceOf)
  }

  function After(g: Gateway, events: seq<Event>, priceOf: PriceReader): (r: Gateway)
    requires AllOpen(g.venue)
    ensures AllOpen(r.venue)
    decreases events
  {
    if events == [] then g else After(Happen(g, events[0], priceOf), events[1..], priceOf)
  }

  /** Feed the log's whole records to the engine, in order; nothing is reported or logged. */
  function Replayed(g: Gateway, priceOf: PriceReader): (r: Gateway)
    requires AllOpen(g.venue)
    ensures AllOpen(r.venue)
  {
    var ops := ReplayOps(g.log, priceOf);
    g.(venue := Run(g.venue, ops), performed := g.performed + ops, outside := g.outside || !Admissible(g.venue, ops))
  }

  /** A process that finds this log file, with or without the replay option. */
  function Boot(capacity: nat, file: Bytes, replay: bool, priceOf: PriceReader): (r: Gateway)
    ensures AllOpen(r.venue)
  {
    var g := Gateway(Start(capacity), map[], true, file, [], [], false, false);
    if replay then Replayed(g, priceOf) else g
  }

  // ---------------------------------------------------------------- packets of a read, as a session's effect

  /** How many packets of a session are dispatched: all of them, or those up to the first fatal one. */
  function Ran(m: Venue, loggedIn: bool, packets: seq<Bytes>, priceOf: PriceReader): (n: nat)
    requires AllOpen(m)
    ensures n <= |packets| && (packets != [] ==> n > 0)
    decreases packets
  {
    if packets == [] then 0
    else if Fatal(m, loggedIn, packets[0], priceOf) then 1
    else
      var e := PacketEffect(loggedIn, packets[0], priceOf);
      1 + Ran(Run(m, e.ops), e.loggedIn, packets[1..], priceOf)
  }

  /** No packet is fatal, each taken in the state the ones before it led to. */
  predicate Safe(m: Venue, loggedIn: bool, packets: seq<Bytes>, priceOf: PriceReader)
    requires AllOpen(m)
    decreases packets
  {
    packets != [] ==>
      && !Fatal(m, loggedIn, packets[0], priceOf)
      && var e := PacketEffect(loggedIn, packets[0], priceOf);
         Safe(Run(m, e.ops), e.loggedIn, packets[1..], priceOf)
  }

  /** The reports a session's packets cause, each computed in the state the ones before it led to. */
  function SessionReports(m: Venue, loggedIn: bool, packets: seq<Bytes>, priceOf: PriceReader): seq<Report>
    requires AllOpen(m)
    decreases packets
  {
    if packets == [] then []
    else
      var e := PacketEffect(loggedIn, packets[0], priceOf);
      PacketReports(m, loggedIn, packets[0], priceOf)
      + SessionReports(Run(m, e.ops), e.loggedIn, packets[1..], priceOf)
  }

  /** The first fatal packet is the last one dispatched: none before it is fatal, each taken in the state the
      ones before it led to, and if any is left out, the last one dispatched is. */
  lemma {:induction false} RanStopsAtFatal(m: Venue, loggedIn: bool, packets: seq<Bytes>, i: nat, priceOf: PriceReader)
    requires AllOpen(m) && i < Ran(m, loggedIn, packets, priceOf)
    ensures var n := Ran(m, loggedIn, packets, priceOf);
      var before := SessionEffect(loggedIn, packets[..i], priceOf);
      && (i < n - 1 ==> !Fatal(Run(m, before.ops), before.loggedIn, packets[i], priceOf))
      && (i == n - 1 && n < |packets| ==> Fatal(Run(m, before.ops), before.loggedIn, packets[i], priceOf))
    decreases packets
  {
    hide Fatal, PacketEffect, Run, AllOpen;
    if i == 0 {
      RunOne(m, []);
    } else {
      var e := PacketEffect(loggedIn, packets[0], priceOf);
      RanStopsAtFatal(Run(m, e.ops), e.loggedIn, packets[1..], i - 1, priceOf);
      assert packets[..i][1..] == packets[1..][..i - 1];
      RunConcat(m, e.ops, SessionEffect(e.loggedIn, packets[1..][..i - 1], priceOf).ops);
    }
  }

  /** From g to g', session fd took the packets: engine, log, reports and log-in are theirs, and something
      lies outside the model exactly when a packet is too short or their operations are not admissible. */
  ghost predicate Took(g: Gateway, g': Gateway, fd: int, packets: seq<Bytes>, priceOf: PriceReader)
    requires AllOpen(g.venue)
  {
    var s := SessionOf(g, fd);
    var e := SessionEffect(s.loggedIn, packets, priceOf);
    && g'.venue == Run(g.venue, e.ops)
    && g'.performed == g.performed + e.ops
    && g'.logOpen == g.logOpen && g'.log == g.log + (if g.logOpen then e.log else [])
    && g'.sent == g.sent + To(fd, SessionReports(g.venue, s.loggedIn, packets, priceOf))
    && SessionOf(g', fd).loggedIn == e.loggedIn
    && (g'.outside <==> g.outside || !AllWellSized(packets) || !Admissible(g.venue, e.ops))
    && forall other :: other != fd ==> SessionOf(g', other) == SessionOf(g, other)
  }

  lemma {:induction false} TookNothing(g: Gateway, fd: int, priceOf: PriceReader)
    requires AllOpen(g.venue)
    ensures Took(g, g, fd, [], priceOf)
  {
    hide Run;
    RunOne(g.venue, []);
    ToConcat(fd, [], []);
    assert g.log + [] == g.log && g.sent + [] == g.sent && g.performed + [] == g.performed;
  }

  lemma {:induction false} TookOneMore(g: Gateway, g': Gateway, fd: int, p: Bytes, buffer: Bytes, packets: seq<Bytes>,
      priceOf: PriceReader)
    requires AllOpen(g.venue) && Took(WithBuffer(Deliver(g, fd, p, priceOf), fd, buffer), g', fd, packets, priceOf)
    ensures Took(g, g', fd, [p] + packets, priceOf)
  {
    hide PacketEffect, PacketReports, Run, To, Fatal, Admissible, AllOpen, WellSized, AllWellSized;
    var s := SessionOf(g, fd);
    var now := PacketEffect(s.loggedIn, p, priceOf);
    var later := SessionEffect(now.loggedIn, packets, priceOf);
    var m := Run(g.venue, now.ops);
    var reports := PacketReports(g.venue, s.loggedIn, p, priceOf);
    var more := SessionReports(m, now.loggedIn, packets, priceOf);
    assert ([p] + packets)[1..] == packets;
    RunConcat(g.venue, now.ops, later.ops);
    AdmissibleConcat(g.venue, now.ops, later.ops);
    AllWellSizedCons(p, packets);
    ToConcat(fd, reports, more);
    SeqAssociates(g.performed, now.ops, later.ops);
    SeqAssociates(g.sent, To(fd, reports), To(fd, more));
    SeqAssociates(g.log, now.log, later.log);
    assert g.log + [] + [] == g.log + [];
  }

  lemma {:induction false} DeliverIs(g: Gateway, fd: int, p: Bytes, priceOf: PriceReader)
    requires AllOpen(g.venue)
    ensures var s, next := SessionOf(g, fd), Deliver(g, fd, p, priceOf);
      var e := PacketEffect(s.loggedIn, p, priceOf);
      && next.venue == Run(g.venue, e.ops) && SessionOf(next, fd) == Session(e.loggedIn, s.buffer)
      && next.crashed == (g.crashed || Fatal(g.venue, s.loggedIn, p, priceOf))
      && WithBuffer(next, fd, s.buffer) == next
  {
    hide Run, PacketEffect, PacketReports, Fatal, Admissible, WellSized;
    var s, next := SessionOf(g, fd), Deliver(g, fd, p, priceOf);
    assert next.sessions[fd := SessionOf(next, fd).(buffer := s.buffer)] == next.sessions;
  }

  /** A read dispatches exactly the packets now complete, all of them unless one is fatal, and then up to
      that one; what it does to engine, log, sender and session is what those packets mean; and unless the
      process ended, the session keeps exactly the unconsumed suffix. */
  lemma {:induction false} DispatchIsSession(g: Gateway, fd: int, priceOf: PriceReader)
    requires AllOpen(g.venue) && !g.crashed
    ensures var s := SessionOf(g, fd);
      var parsed := Parse(MAX_PACKET, s.buffer);
      var n := Ran(g.venue, s.loggedIn, parsed.packets, priceOf);
      var g' := Dispatch(g, fd, priceOf);
      && Took(g, g', fd, parsed.packets[..n], priceOf)
      && (g'.crashed <==> !Safe(g.venue, s.loggedIn, parsed.packets, priceOf))
      && (!g'.crashed ==> n == |parsed.packets| && SessionOf(g', fd).buffer == parsed.rest)
    decreases |SessionOf(g, fd).buffer|
  {
    hide Took, MsgLen, Parse, PacketEffect, Deliver, Run, Fatal, AllOpen;
    var s := SessionOf(g, fd);
    ParseOne(MAX_PACKET, s.buffer);
    if HasPacket(MAX_PACKET, s.buffer) {
      var p, rest := s.buffer[..MsgLen(s.buffer)], s.buffer[MsgLen(s.buffer)..];
      var next := Deliver(g, fd, p, priceOf);
      DeliverIs(g, fd, p, priceOf);
      var more := Parse(MAX_PACKET, rest).packets;
      assert ([p] + more)[1..] == more;
      if next.crashed {
        TookNothing(next, fd, priceOf);
        TookOneMore(g, next, fd, p, s.buffer, [], priceOf);
        assert ([p] + more)[..1] == [p] + [];
      } else {
        var went := WithBuffer(next, fd, rest);
        DispatchIsSession(went, fd, priceOf);
        var n := Ran(went.venue, SessionOf(went, fd).loggedIn, more, priceOf);
        TookOneMore(g, Dispatch(went, fd, priceOf), fd, p, rest, more[..n], priceOf);
        assert ([p] + more)[..1 + n] == [p] + more[..n];
      }
    } else {
      TookNothing(g, fd, priceOf);
      assert Parse(MAX_PACKET, s.buffer).packets[..0] == [];
    }
  }
}
