/** The C++ gateway (src/client_gateway.cpp): from the bytes of a connection to calls on the engine, the
    event log, its replay, and the reports to the sender of an order. */
module ClientGateway {
  import opened Types
  import opened NaiveBook
  import opened SweepLaws
  import opened ReferenceEngine
  import opened ReferenceRuns
  import opened Wire
  import opened OrderMessages
  import opened GatewayModel
  import opened GatewayReports
  import opened GatewayRuns
  import ME = MatchingEngine
  import OB = OrderBook

  lemma {:induction false} SumQuantityUpTo(trades: seq<Trade>, k: nat)
    requires k < |trades|
    ensures SumQuantity(trades[..k + 1]) == SumQuantity(trades[..k]) + trades[k].quantity <= SumQuantity(trades)
  {
    SumQuantityConcat(trades[..k + 1], trades[k + 1..]);
    assert trades == trades[..k + 1] + trades[k + 1..];
    SumQuantityConcat(trades[..k], [trades[k]]);
    assert trades[..k + 1] == trades[..k] + [trades[k]];
    assert [trades[k]][1..] == [];
  }

  lemma {:induction false} NoTradesNoQuantity(trades: seq<Trade>)
    ensures trades[..0] == [] && SumQuantity([]) == 0
  {
  }

  lemma {:induction false} TradedAtMost(m: Venue, o: Order)
    requires AllOpen(m) && o.filled == 0
    ensures SumQuantity(NewOrder(m, o).1) <= o.quantity
  {
    NewOrderConserves(m, o);
  }

  lemma {:induction false} OneMoreTrade(o: Order, filled: Quantity, trades: seq<Trade>, found: Book, k: nat)
    requires k < |trades|
    ensures TradeReports(o, trades, found, 0) == []
    ensures TradeReports(o, trades, found, k + 1)
         == TradeReports(o, trades, found, k)
            + [TakerReport(o, trades, k), MakerReport(o.(filled := filled), trades[k], found)]
  {
  }

  /** To what had been sent two reports were added for every trade, and the first of each two goes to the
      order's sender with the running fill. */
  predicate AllReported(before: seq<(int, Report)>, sent: seq<(int, Report)>, fd: int, o: Order, trades: seq<Trade>) {
    && |sent| == |before| + 2 * |trades|
    && forall k :: 0 <= k < |trades| ==>
         var (to, r) := sent[|before| + 2 * k];
         && to == fd && r.orderId == o.id && r.userId == o.userId && r.side == (if o.side == Buy then 0 else 1)
         && r.price == trades[k].price && r.quantity == trades[k].quantity
         && r.filledQuantity == SumQuantity(trades[..k + 1])
         && r.status == if SumQuantity(trades[..k + 1]) >= o.quantity then 2 else 1
  }

  lemma {:induction false} SentIs(before: seq<(int, Report)>, fd: int, o: Order, trades: seq<Trade>, found: Book)
    requires trades != []
    ensures AllReported(before, before + To(fd, OrderReports(o, trades, Some(found))), fd, o, trades)
  {
    hide SumQuantity, OrderReports;
    ReportsOnTrade(o, trades, found, 0);
    forall k | 0 <= k < |trades|
      ensures var sent := before + To(fd, OrderReports(o, trades, Some(found)));
        sent[|before| + 2 * k] == (fd, OrderReports(o, trades, Some(found))[2 * k])
    {
    }
    forall k | 0 <= k < |trades|
      ensures var r := OrderReports(o, trades, Some(found))[2 * k];
        && r.orderId == o.id && r.userId == o.userId && r.side == (if o.side == Buy then 0 else 1)
        && r.price == trades[k].price && r.quantity == trades[k].quantity
        && r.filledQuantity == SumQuantity(trades[..k + 1])
        && r.status == if SumQuantity(trades[..k + 1]) >= o.quantity then 2 else 1
    {
      ReportsOnTrade(o, trades, found, k);
    }
  }

  class ClientGateway {
    const engine: ME.MatchingEngine
    const priceOf: PriceReader
    var sessions: map<int, Session>
    /** The contents of the event log's file, which is opened for appending. */
    var eventLog: Bytes
    var logOpen: bool
    /** Reports sent to the senders of orders, with the connection each went to. */
    var sent: seq<(int, Report)>
    /** The process ended on a null book. */
    var crashed: bool

    /** Every operation made on the engine. */
    ghost var performed: seq<Op>

    ghost function State(): Gateway
      reads this, engine, engine.orderPool, engine.orderBooks.Values
    {
      Gateway(engine.Abs(), sessions, logOpen, eventLog, sent, performed, crashed, false)
    }

    ghost predicate Valid()
      reads engine, engine.orderPool, engine.orderPool.slots, engine.orderBooks.Values
    {
      engine.Valid() && AllOpen(engine.Abs())
    }

    constructor (engine: ME.MatchingEngine, priceOf: PriceReader, file: Bytes, logOpen: bool)
      ensures this.engine == engine && this.priceOf == priceOf && this.logOpen == logOpen
      ensures sessions == map[] && eventLog == file && sent == [] && performed == [] && !crashed
    {
      this.engine, this.priceOf, this.logOpen := engine, priceOf, logOpen;
      sessions, eventLog, sent, performed, crashed := map[], file, [], [], false;
    }

    function CurrentSession(fd: int): Session
      reads this`sessions
    {
      if fd in sessions then sessions[fd] else NEW_SESSION
    }

    method CleanSymbol(raw: Bytes) returns (s: Bytes)
      ensures s == Clean(raw)
    {
      s := RemoveNul(raw);
      while s != [] && IsSpace(s[|s| - 1])
        invariant TrimRight(s) == Clean(raw)
      {
        s := s[..|s| - 1];
      }
    }

    // -------------------------------------------------------------- connections

    method OnConnection(fd: int)
      requires Valid() && !crashed
      modifies this`sessions
      ensures Valid() && State() == Happen(old(State()), Opened(fd), priceOf)
      ensures sessions == old(sessions)[fd := Session(false, [])]
    {
      hide ME.MatchingEngine.Valid, ME.MatchingEngine.Abs, AllOpen;
      sessions := sessions[fd := NEW_SESSION];
    }

    method OnDisconnection(fd: int)
      requires Valid() && !crashed
      modifies this`sessions
      ensures Valid() && State() == Happen(old(State()), Closed(fd), priceOf)
      ensures sessions == old(sessions) - {fd}
    {
      hide ME.MatchingEngine.Valid, ME.MatchingEngine.Abs, AllOpen;
      sessions := sessions - {fd};
    }

    // -------------------------------------------------------------- orders

    /** The report on the maker of a trade, once the order's book is looked up by the C string in the packet;
        when there is none the process ends. */
    method ReportOnMaker(fd: int, order: Order, trade: Trade, name: Option<Bytes>)
      requires Valid() && !crashed
      modifies this`sent, this`crashed
      ensures var found := BookNamed(engine.Abs().books, name);
        && (crashed <==> found.None?)
        && sent == old(sent) + if found.Some? then [(fd, MakerReport(order, trade, found.value))] else []
    {
      hide ME.MatchingEngine.Abs, ME.MatchingEngine.Valid, OB.OrderBook.Valid, Get, HasId, AllOpen;
      assert sent + [] == sent;
      if name.None? {
        crashed := true;
        return;
      }
      var getBook := engine.GetOrderBook(name.value);
      if getBook.None? {
        crashed := true;
        return;
      }
      var getOrder := getBook.value.GetOrderById(order.id);
      var maker := if order.side.Buy? then trade.sellOrderId else trade.buyOrderId;
      var filled := if getOrder.Some? then engine.orderPool.slots[getOrder.value].filled else trade.quantity;
      var report := Report(maker, maker, SideByte(order.side.Opposite()), trade.price, trade.quantity, filled, 2);
      sent := sent + [(fd, report)];
    }

    /** Report on each trade to the sender, with the running fill kept in the local copy of the order, and
        after it on the maker; when the order's book is not found the process ends after the first report. */
    method SendReports(fd: int, o: Order, trades: seq<Trade>, name: Option<Bytes>)
      requires Valid() && !crashed && o.filled == 0 && SumQuantity(trades) <= o.quantity
      modifies this`sent, this`crashed
      ensures crashed <==> trades != [] && BookNamed(engine.Abs().books, name).None?
      ensures sent == old(sent) + To(fd, OrderReports(o, trades, BookNamed(engine.Abs().books, name)))
      ensures trades != [] && !crashed ==> AllReported(old(sent), sent, fd, o, trades)
    {
      hide SumQuantity, To, ME.MatchingEngine.Abs, Valid, BookNamed, MakerReport, TradeReports, AllReported;
      ghost var found, reports := BookNamed(engine.Abs().books, name), [];
      if trades != [] {
        var order := o;
        NoTradesNoQuantity(trades);
        ToConcat(fd, [], []);
        assert sent + [] == sent;
        for k := 0 to |trades|
          invariant order == o.(filled := order.filled) && order.filled == SumQuantity(trades[..k])
          invariant !crashed && (k > 0 ==> found.Some?)
          invariant k == 0 ==> reports == []
          invariant k > 0 ==> reports == TradeReports(o, trades, found.value, k)
          invariant sent == old(sent) + To(fd, reports)
        {
          SumQuantityUpTo(trades, k);
          order := order.ReduceQuantity(trades[k].quantity);
          var report := Report(order.id, order.userId, SideByte(order.side), trades[k].price, trades[k].quantity,
                               order.filled, if order.IsFilled() then 2 else 1);
          sent := sent + [(fd, report)];
          ToOne(fd, report);
          ReportOnMaker(fd, order, trades[k], name);
          if crashed {
            return;
          }
          OneMoreTrade(o, order.filled, trades, found.value, k);
          ToTwo(fd, reports, report, MakerReport(order, trades[k], found.value));
          reports := reports + [report, MakerReport(order, trades[k], found.value)];
        }
        SentIs(old(sent), fd, o, trades, found.value);
      } else {
        var report := Report(o.id, o.userId, SideByte(o.side), o.price, o.quantity, 0, 0);
        ToOne(fd, report);
        sent := sent + [(fd, report)];
      }
    }

    /** Run a decoded order through the engine; unless it is a replayed one, report to its sender. */
    method HandleNewOrderInternal(req: Bytes, fd: int, isReplay: bool)
      requires Valid() && !crashed && |req| >= NEW_ORDER_SIZE
      requires !Clashes(engine.Abs(), DecodeOrder(req, priceOf))
      modifies this`sent, this`crashed, this`performed
      modifies engine, engine.orderPool`freeIndices, engine.orderPool.slots, engine.orderBooks.Values
      ensures Valid() && fresh(engine.orderBooks.Values - old(engine.orderBooks.Values))
      ensures performed == old(performed) + [New(DecodeOrder(req, priceOf))]
      ensures var (m', trades) := NewOrder(old(engine.Abs()), DecodeOrder(req, priceOf));
        && engine.Abs() == m'
        && (isReplay ==> sent == old(sent) && !crashed)
        && (!isReplay ==>
              && (crashed <==> trades != [] && LookedUp(m', req).None?)
              && sent == old(sent) + To(fd, OrderReports(DecodeOrder(req, priceOf), trades, LookedUp(m', req))))
    {
      hide ME.MatchingEngine.Valid, ME.MatchingEngine.Abs, NewOrder, Clashes, SumQuantity, OrderReports, To, AllOpen,
           CString;
      var symbol := CleanSymbol(req[21..31]);
      var order := DecodeOrder(req, priceOf).(symbol := symbol);
      assert order == DecodeOrder(req, priceOf);
      TradedAtMost(engine.Abs(), order);
      var trades := engine.ProcessNewOrder(order);
      performed := performed + [New(order)];
      if !isReplay {
        SendReports(fd, order, trades, CString(req));
      }
    }

    /** Cancel in the engine and report the outcome to the sender. */
    method HandleOrderCancel(fd: int, req: Bytes)
      requires Valid() && |req| >= ORDER_CANCEL_SIZE
      modifies this`sent, this`performed, engine, engine.orderPool`freeIndices, engine.orderBooks.Values
      ensures Valid() && fresh(engine.orderBooks.Values - old(engine.orderBooks.Values))
      ensures performed == old(performed) + [DecodeCancel(req)]
      ensures DecodeCancel(req) == Cancel(FromLE(req[5..13]), Clean(req[21..31]))
      ensures var op := DecodeCancel(req);
        var (m', cancelled) := CancelOrder(old(engine.Abs()), op.id, op.symbol);
        engine.Abs() == m' && sent == old(sent) + To(fd, [CancelReport(req, cancelled)])
    {
      hide ME.MatchingEngine.Valid, ME.MatchingEngine.Abs, CancelOrder, To, AllOpen;
      var symbol := CleanSymbol(req[21..31]);
      var cancelled := engine.CancelOrder(U64At(req, 5), symbol, req[31]);
      performed := performed + [DecodeCancel(req)];
      var report := match cancelled
        case Some(o) => Report(U64At(req, 5), U64At(req, 13), SideByte(o.side), o.price, o.quantity, o.filled, 3)
        case None => Report(U64At(req, 5), U64At(req, 13), req[31], 0.0, 0, 0, 4);
      ToOne(fd, report);
      sent := sent + [(fd, report)];
    }

    // -------------------------------------------------------------- one packet

    /** Only logged-in sessions reach engine and log.  The packet must be as long as its struct and its
        order must not come to rest under an identifier that rests already. */
    method ProcessPacket(fd: int, data: Bytes)
      requires Valid() && !crashed && fd in sessions
      requires !Deliver(State(), fd, data, priceOf).outside
      modifies this, engine, engine.orderPool`freeIndices, engine.orderPool.slots, engine.orderBooks.Values
      ensures Valid() && fresh(engine.orderBooks.Values - old(engine.orderBooks.Values))
      ensures State() == Deliver(old(State()), fd, data, priceOf)
    {
      hide ME.MatchingEngine.Valid, ME.MatchingEngine.Abs, NewOrder, CancelOrder, Clashes, To, OrderReports,
           CancelReport, LookedUp, DecodeOrder, Deliver, AllOpen, MsgType;
      DeliverCases(State(), fd, data, priceOf);
      assert sessions == sessions[fd := sessions[fd]];
      if MsgType(data) == LOGIN_REQUEST {
        sessions := sessions[fd := sessions[fd].(loggedIn := true)];
        return;
      }
      if !sessions[fd].loggedIn {
        return;
      }
      if MsgType(data) == NEW_ORDER {
        if logOpen {
          eventLog := eventLog + data[..NEW_ORDER_SIZE];
        }
        HandleNewOrderInternal(data, fd, false);
      } else if MsgType(data) == ORDER_CANCEL {
        if logOpen {
          eventLog := eventLog + data[..ORDER_CANCEL_SIZE];
        }
        HandleOrderCancel(fd, data);
      }
    }

    // -------------------------------------------------------------- the byte stream

    /** Write a session's buffer, creating the session if there is none. */
    method SetBuffer(fd: int, buffer: Bytes)
      requires Valid()
      modifies this`sessions
      ensures Valid() && fd in sessions && State() == WithBuffer(old(State()), fd, buffer)
    {
      hide ME.MatchingEngine.Valid, ME.MatchingEngine.Abs, AllOpen;
      sessions := sessions[fd := CurrentSession(fd).(buffer := buffer)];
    }

    lemma StateIs(fd: int)
      requires Valid()
      ensures SessionOf(State(), fd) == CurrentSession(fd) && State().crashed == crashed && !State().outside
      ensures State().sessions == sessions && AllOpen(State().venue)
    {
    }

    /** Append what was read, then dispatch whole packets off the front of the session's buffer. */
    method OnMessage(fd: int, data: Bytes)
      requires Valid() && !crashed && !Receive(State(), fd, data, priceOf).outside
      modifies this, engine, engine.orderPool`freeIndices, engine.orderPool.slots, engine.orderBooks.Values
      ensures Valid() && fresh(engine.orderBooks.Values - old(engine.orderBooks.Values))
      ensures State() == Receive(old(State()), fd, data, priceOf)
    {
      hide Valid, State, MsgLen, Deliver, Dispatch, AllOpen;
      StateIs(fd);
      ghost var goal := Receive(State(), fd, data, priceOf);
      SetBuffer(fd, CurrentSession(fd).buffer + data);
      while true
        invariant Valid() && fresh(engine.orderBooks.Values - old(engine.orderBooks.Values))
        invariant fd in sessions && !crashed && AllOpen(State().venue) && Dispatch(State(), fd, priceOf) == goal
        decreases |sessions[fd].buffer|
      {
        StateIs(fd);
        if |sessions[fd].buffer| < HEADER_SIZE {
          break;
        }
        var len := MsgLen(sessions[fd].buffer);
        if len > MAX_PACKET || len < HEADER_SIZE {
          DispatchEnds(State(), fd, priceOf);
          return;
        }
        if |sessions[fd].buffer| < len {
          break;
        }
        var msgData := sessions[fd].buffer[..len];
        StepOfDispatch(State(), fd, priceOf);
        ProcessPacket(fd, msgData);
        StateIs(fd);
        if crashed {
          return;
        }
        SetBuffer(fd, sessions[fd].buffer[len..]);
        StateIs(fd);
      }
      StateIs(fd);
      DispatchEnds(State(), fd, priceOf);
    }

    /** Whatever connections come, go and send. */
    method Serve(events: seq<Event>)
      requires Valid() && !crashed && !After(State(), events, priceOf).outside
      modifies this, engine, engine.orderPool`freeIndices, engine.orderPool.slots, engine.orderBooks.Values
      ensures Valid() && fresh(engine.orderBooks.Values - old(engine.orderBooks.Values))
      ensures State() == After(old(State()), events, priceOf)
    {
      hide ME.MatchingEngine.Valid, ME.MatchingEngine.Abs, Receive, After, AllOpen;
      ghost var goal := After(State(), events, priceOf);
      assert events[0..] == events && events[|events|..] == [];
      LifeStartsInside(State(), events, priceOf);
      for i := 0 to |events|
        invariant Valid() && fresh(engine.orderBooks.Values - old(engine.orderBooks.Values))
        invariant !crashed && After(State(), events[i..], priceOf) == goal
      {
        StepOfLife(State(), events[i..], priceOf);
        assert events[i..][1..] == events[i + 1..] && events[i..][0] == events[i];
        match events[i]
        case Opened(fd) => OnConnection(fd);
        case Closed(fd) => OnDisconnection(fd);
        case Read(fd, data) => OnMessage(fd, data);
        if crashed {
          CrashedStays(State(), events[i + 1..], priceOf);
          return;
        }
      }
      LifeEnds(State(), priceOf);
    }

    // -------------------------------------------------------------- replay

    /** Feed the whole records of the log's file to the engine, in order. */
    method ReplayEvents()
      requires Valid() && !crashed && !Replayed(State(), priceOf).outside
      modifies this`sent, this`crashed, this`performed
      modifies engine, engine.orderPool`freeIndices, engine.orderPool.slots, engine.orderBooks.Values
      ensures Valid() && fresh(engine.orderBooks.Values - old(engine.orderBooks.Values))
      ensures State() == Replayed(old(State()), priceOf)
    {
      hide ME.MatchingEngine.Valid, ME.MatchingEngine.Abs, Clashes, DecodeOrder, NewOrder, ReplayOps, Run, AllOpen,
           Admissible;
      ghost var m, was, ops := engine.Abs(), performed, ReplayOps(eventLog, priceOf);
      var pos, n := 0, 0;
      assert ops[..0] == [] && performed + [] == performed;
      AdmissibleIsUnfilled(m, ops);
      RunOne(m, []);
      while pos + NEW_ORDER_SIZE <= |eventLog|
        invariant Valid() && fresh(engine.orderBooks.Values - old(engine.orderBooks.Values))
        invariant pos == n * NEW_ORDER_SIZE && n <= |ops| && sent == old(sent) && !crashed
        invariant engine.Abs() == Run(m, ops[..n]) && performed == was + ops[..n]
      {
        var req := eventLog[pos..pos + NEW_ORDER_SIZE];
        ReplayNth(eventLog, n, priceOf);
        AdmissibleAt(m, ops, n);
        assert ops[..n + 1] == ops[..n] + [ops[n]];
        SeqAssociates(was, ops[..n], [ops[n]]);
        HandleNewOrderInternal(req, -1, true);
        pos, n := pos + NEW_ORDER_SIZE, n + 1;
      }
      assert ops[..n] == ops;
    }
  }

  lemma {:induction false} AdmissibleOne(m: Venue, ops: seq<Op>)
    requires AllOpen(m) && |ops| <= 1 && Admissible(m, ops)
    ensures ops != [] && ops[0].New? ==> ops[0].order.filled == 0 && !Clashes(m, ops[0].order)
  {
    hide Clashes;
    if ops != [] {
      assert ops[..0] == [];
    }
  }

  /** What a packet of each kind does, as long as it lies inside the model. */
  lemma {:induction false} DeliverCases(g: Gateway, fd: int, p: Bytes, priceOf: PriceReader)
    requires AllOpen(g.venue) && !g.crashed && !Deliver(g, fd, p, priceOf).outside && fd in g.sessions
    ensures WellSized(p)
    ensures var s, r := g.sessions[fd], Deliver(g, fd, p, priceOf);
      if MsgType(p) == LOGIN_REQUEST then
        r == g.(sessions := g.sessions[fd := s.(loggedIn := true)])
      else if !s.loggedIn || (MsgType(p) != NEW_ORDER && MsgType(p) != ORDER_CANCEL) then
        r == g.(sessions := g.sessions[fd := s])
      else if MsgType(p) == NEW_ORDER then
        var o := DecodeOrder(p, priceOf);
        var (m', trades) := NewOrder(g.venue, o);
        && !Clashes(g.venue, o)
        && r == Gateway(m', g.sessions[fd := s], g.logOpen,
                        if g.logOpen then g.log + p[..NEW_ORDER_SIZE] else g.log,
                        g.sent + To(fd, OrderReports(o, trades, LookedUp(m', p))),
                        g.performed + [New(o)], trades != [] && LookedUp(m', p).None?, false)
      else
        var op := DecodeCancel(p);
        var (m', cancelled) := CancelOrder(g.venue, op.id, op.symbol);
        r == Gateway(m', g.sessions[fd := s], g.logOpen,
                     if g.logOpen then g.log + p[..ORDER_CANCEL_SIZE] else g.log,
                     g.sent + To(fd, [CancelReport(p, cancelled)]), g.performed + [op], false, false)
  {
    hide Run, NewOrder, CancelOrder, Clashes, To, OrderReports, CancelReport, LookedUp, DecodeOrder, Admissible,
         AllOpen;
    var e := PacketEffect(g.sessions[fd].loggedIn, p, priceOf);
    ToConcat(fd, [], []);
    RunOne(g.venue, e.ops);
    AdmissibleOne(g.venue, e.ops);
    assert g.sent + [] == g.sent && g.log + [] == g.log && g.performed + [] == g.performed;
  }

  /** One round of the dispatching loop; nothing outside the model lies ahead of it if nothing does at all. */
  lemma {:induction false} StepOfDispatch(g: Gateway, fd: int, priceOf: PriceReader)
    requires AllOpen(g.venue) && !g.crashed && HasPacket(MAX_PACKET, SessionOf(g, fd).buffer)
    requires !Dispatch(g, fd, priceOf).outside
    ensures var buffer := SessionOf(g, fd).buffer;
      var next := Deliver(g, fd, buffer[..MsgLen(buffer)], priceOf);
      && !next.outside && SessionOf(next, fd).buffer == buffer
      && Dispatch(g, fd, priceOf)
         == if next.crashed then next else Dispatch(WithBuffer(next, fd, buffer[MsgLen(buffer)..]), fd, priceOf)
  {
    hide MsgLen, AllOpen, Deliver;
    var buffer := SessionOf(g, fd).buffer;
    DeliverIs(g, fd, buffer[..MsgLen(buffer)], priceOf);
    var next := Deliver(g, fd, buffer[..MsgLen(buffer)], priceOf);
    if next.outside && !next.crashed {
      OutsideStays(WithBuffer(next, fd, buffer[MsgLen(buffer)..]), fd, priceOf);
    }
  }

  lemma {:induction false} DispatchEnds(g: Gateway, fd: int, priceOf: PriceReader)
    requires AllOpen(g.venue) && !HasPacket(MAX_PACKET, SessionOf(g, fd).buffer)
    ensures Dispatch(g, fd, priceOf) == g
  {
  }

  lemma {:induction false} StepOfLife(g: Gateway, events: seq<Event>, priceOf: PriceReader)
    requires AllOpen(g.venue) && events != [] && !After(g, events, priceOf).outside
    ensures After(g, events, priceOf) == After(Happen(g, events[0], priceOf), events[1..], priceOf)
    ensures !Happen(g, events[0], priceOf).outside
  {
    hide Happen;
    if Happen(g, events[0], priceOf).outside {
      OutsideStaysAfter(Happen(g, events[0], priceOf), events[1..], priceOf);
    }
  }

  lemma {:induction false} ReplayNth(log: Bytes, n: nat, priceOf: PriceReader)
    requires (n + 1) * NEW_ORDER_SIZE <= |log|
    ensures n < |ReplayOps(log, priceOf)|
    ensures ReplayOps(log, priceOf)[n] == New(DecodeOrder(log[n * NEW_ORDER_SIZE..(n + 1) * NEW_ORDER_SIZE], priceOf))
  {
    RecordAt(log, n);
  }

  lemma {:induction false} RecordAt(log: Bytes, n: nat)
    requires (n + 1) * NEW_ORDER_SIZE <= |log|
    ensures Records(log)[n] == log[n * NEW_ORDER_SIZE..(n + 1) * NEW_ORDER_SIZE]
  {
    if n > 0 {
      var rest := log[NEW_ORDER_SIZE..];
      RecordAt(rest, n - 1);
      assert Records(log)[n] == Records(rest)[n - 1];
      hide Records;
      var at := (n - 1) * NEW_ORDER_SIZE;
      assert rest[at..at + NEW_ORDER_SIZE] == log[at + NEW_ORDER_SIZE..at + NEW_ORDER_SIZE + NEW_ORDER_SIZE];
    }
  }

  // ---------------------------------------------------------------- whole lives

  /** A process on a given log file, with or without the replay option, up to the end of its events. */
  method Live(capacity: nat, file: Bytes, replay: bool, events: seq<Event>, priceOf: PriceReader)
    returns (gateway: ClientGateway)
    requires !After(Boot(capacity, file, replay, priceOf), events, priceOf).outside
    ensures gateway.Valid() && gateway.State() == After(Boot(capacity, file, replay, priceOf), events, priceOf)
  {
    hide ME.MatchingEngine.Valid, After, Run, ReplayOps, Admissible;
    var engine := new ME.MatchingEngine(capacity);
    gateway := new ClientGateway(engine, priceOf, file, true);
    LifeStartsInside(Boot(capacity, file, replay, priceOf), events, priceOf);
    if replay {
      gateway.ReplayEvents();
    }
    gateway.Serve(events);
  }

  lemma {:induction false} LifeEnds(g: Gateway, priceOf: PriceReader)
    requires AllOpen(g.venue)
    ensures After(g, [], priceOf) == g
  {
  }

  lemma {:induction false} LifeStartsInside(g: Gateway, events: seq<Event>, priceOf: PriceReader)
    requires AllOpen(g.venue) && !After(g, events, priceOf).outside
    ensures !g.outside
  {
    hide After;
    if g.outside {
      OutsideStaysAfter(g, events, priceOf);
    }
  }

  /** Two lives, the second on the file the first one left: if the first cancelled nothing, the second has
      the first one's books, trade history, counters and pool before it serves anything, however the first
      one ended. */
  method LiveAndRestart(capacity: nat, file: Bytes, replay: bool, events: seq<Event>, priceOf: PriceReader)
    returns (first: ClientGateway, second: ClientGateway)
    requires KeepsLog(file, replay)
    requires var g := After(Boot(capacity, file, replay, priceOf), events, priceOf);
      !g.outside && NoCancels(g.performed)
    ensures first.Valid() && first.State() == After(Boot(capacity, file, replay, priceOf), events, priceOf)
    ensures second.Valid() && second.engine.Abs() == first.engine.Abs() && second.performed == first.performed
    ensures second.sent == [] && !second.crashed
  {
    hide ME.MatchingEngine.Valid, ME.MatchingEngine.Abs, Boot, AllOpen;
    first := Live(capacity, file, replay, events, priceOf);
    ghost var g := first.State();
    RestartRecovers(capacity, file, replay, events, 0, priceOf);
    NothingSent(capacity, g.log, true, priceOf);
    second := Live(capacity, first.eventLog, true, [], priceOf);
  }

  lemma {:induction false} NothingSent(capacity: nat, file: Bytes, replay: bool, priceOf: PriceReader)
    ensures var g := Boot(capacity, file, replay, priceOf); g.sent == [] && !g.crashed && After(g, [], priceOf) == g
  {
  }
}
