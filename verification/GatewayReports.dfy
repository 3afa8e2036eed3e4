/** What the gateway sends, field by field: the reports on an order's trades, the report on an order that does
    not trade, and the answer to a cancel. */
module GatewayReports {
  import opened Types
  import opened NaiveBook
  import opened SweepLaws
  import opened ReferenceEngine
  import opened ReferenceRuns
  import opened ReferenceTrades
  import opened Wire
  import opened OrderMessages
  import opened GatewayModel

  // ---------------------------------------------------------------- orders

  /** The two reports on trade k.  The sender's carries the sum of the quantities so far, and status 2 as soon
      as that is the whole order; the maker's its order number twice, status 2, and as fill what the sender's
      order has in the book looked up, or the quantity of the trade. */
  lemma {:induction false} ReportsOnTrade(o: Order, trades: seq<Trade>, found: Book, k: nat)
    requires k < |trades|
    ensures var sent := OrderReports(o, trades, Some(found));
      var t := trades[k];
      && |sent| == 2 * |trades|
      && (var r := sent[2 * k];
          && r.orderId == o.id && r.userId == o.userId && r.side == (if o.side == Buy then 0 else 1)
          && r.price == t.price && r.quantity == t.quantity
          && r.filledQuantity == SumQuantity(trades[..k + 1])
          && r.status == if SumQuantity(trades[..k + 1]) >= o.quantity then 2 else 1)
      && (var r := sent[2 * k + 1];
          && r.orderId == r.userId == (if o.side == Buy then t.sellOrderId else t.buyOrderId)
          && r.side == (if o.side == Buy then 1 else 0) && r.price == t.price && r.quantity == t.quantity
          && r.filledQuantity == (if Get(found, o.id).Some? then Get(found, o.id).value.filled else t.quantity)
          && r.status == 2)
  {
    hide Get, SumQuantity;
    TradeReportsAt(o, trades, found, |trades|, k);
  }

  /** With no trade there is one report, status 0; with a trade but no book only the first report goes out. */
  lemma {:induction false} SingleReports(o: Order, trades: seq<Trade>, found: Option<Book>)
    ensures trades == [] ==>
      OrderReports(o, trades, found)
      == [Report(o.id, o.userId, if o.side == Buy then 0 else 1, o.price, o.quantity, 0, 0)]
    ensures trades != [] && found.None? ==>
      var t := trades[0];
      OrderReports(o, trades, found)
      == [Report(o.id, o.userId, if o.side == Buy then 0 else 1, t.price, t.quantity, t.quantity,
                 if t.quantity >= o.quantity then 2 else 1)]
  {
    if trades != [] {
      assert trades[..1] == [trades[0]] && [trades[0]][1..] == [];
      assert SumQuantity([trades[0]]) == trades[0].quantity + SumQuantity([]);
    }
  }

  lemma {:induction false} RunningFill(trades: seq<Trade>, k: nat)
    requires k < |trades| && forall i :: 0 <= i < |trades| ==> trades[i].quantity > 0
    ensures SumQuantity(trades[..k + 1]) <= SumQuantity(trades)
    ensures SumQuantity(trades[..k + 1]) == SumQuantity(trades) <==> k == |trades| - 1
    ensures SumQuantity(trades[..k + 1]) == SumQuantity(trades[..k]) + trades[k].quantity
  {
    assert trades == trades[..k + 1] + trades[k + 1..] && trades[..k + 1] == trades[..k] + [trades[k]];
    SumQuantityConcat(trades[..k + 1], trades[k + 1..]);
    SumQuantityConcat(trades[..k], [trades[k]]);
    assert [trades[k]][1..] == [];
    if k < |trades| - 1 {
      assert trades[k + 1..][0] == trades[k + 1];
    }
  }

  /** Over the sender's reports of one call: each fill is the one before plus that report's quantity, none
      exceeds the order, and only the last can say that it is complete. */
  lemma {:induction false} FillsAddUp(m: Venue, o: Order, found: Book, k: nat)
    requires AllOpen(m) && o.filled == 0 && k < |NewOrder(m, o).1|
    ensures var trades := NewOrder(m, o).1;
      var sent := OrderReports(o, trades, Some(found));
      var n := |trades|;
      && |sent| == 2 * n
      && sent[2 * k].filledQuantity == sent[2 * k].quantity + (if k == 0 then 0 else sent[2 * (k - 1)].filledQuantity)
      && sent[2 * k].filledQuantity <= sent[2 * (n - 1)].filledQuantity == SumQuantity(trades) <= o.quantity
      && (sent[2 * k].status == 2 <==> k == n - 1 && SumQuantity(trades) == o.quantity)
  {
    hide NewOrder, SumQuantity, OrderReports;
    var trades := NewOrder(m, o).1;
    forall i | 0 <= i < |trades| ensures trades[i].quantity > 0 {
      TradeTerms(m, o, i);
    }
    NewOrderConserves(m, o);
    ReportsOnTrade(o, trades, found, k);
    ReportsOnTrade(o, trades, found, |trades| - 1);
    RunningFill(trades, k);
    RunningFill(trades, |trades| - 1);
    if k > 0 {
      ReportsOnTrade(o, trades, found, k - 1);
    } else {
      NothingToSum(trades);
    }
  }

  lemma {:induction false} NothingToSum(trades: seq<Trade>)
    ensures SumQuantity(trades[..0]) == 0
  {
  }

  /** An order packet, type 78, of a logged-in session: its reports are what is sent, all to that session. */
  lemma {:induction false} OrderIsReported(g: Gateway, fd: int, p: Bytes, priceOf: PriceReader)
    requires AllOpen(g.venue) && fd in g.sessions && g.sessions[fd].loggedIn && WellSized(p) && p[2] == 78
    ensures var o := DecodeOrder(p, priceOf);
      var (m', trades) := NewOrder(g.venue, o);
      var reports := OrderReports(o, trades, BookNamed(m'.books, CString(p)));
      var g' := Deliver(g, fd, p, priceOf);
      && g'.venue == m' && |g'.sent| == |g.sent| + |reports| && g'.sent[..|g.sent|] == g.sent
      && forall k :: 0 <= k < |reports| ==> g'.sent[|g.sent| + k] == (fd, reports[k])
  {
    hide NewOrder, OrderReports, CString, BookNamed, DecodeOrder, Admissible, Fatal;
    RunOne(g.venue, PacketEffect(true, p, priceOf).ops);
  }

  // ---------------------------------------------------------------- cancels

  /** Order k of the book is gone, alone, and its slot is free; the answer to session fd carries its terms and
      fill with status 3. */
  predicate CancelledAt(g: Gateway, g': Gateway, fd: int, orderId: u64, userId: u64, key: Symbol, k: nat) {
    var book := BookOf(g.venue, key);
    && k < |book| && book[k].id == orderId && BookOf(g'.venue, key) == book[..k] + book[k + 1..]
    && g'.venue.free == g.venue.free + 1
    && g'.sent == g.sent + [(fd, Report(orderId, userId, if book[k].side == Buy then 0 else 1, book[k].price,
                                        book[k].quantity, book[k].filled, 3))]
  }

  /** Nothing left the book; the answer to session fd has status 4. */
  predicate NotFound(g: Gateway, g': Gateway, fd: int, orderId: u64, userId: u64, key: Symbol, buy: bool) {
    && BookOf(g'.venue, key) == BookOf(g.venue, key) && g'.venue.free == g.venue.free
    && g'.sent == g.sent + [(fd, Report(orderId, userId, if buy then 0 else 1, 0.0, 0, 0, 4))]
  }

  /** A cancel as the Python gateway packs it, from a logged-in session.  If orders of that identifier rest
      under that symbol one of them is cancelled, otherwise nothing is; other books and the history keep still. */
  lemma {:induction false} CancelIsAnswered(g: Gateway, fd: int, orderId: u64, userId: u64, symbol: Bytes, buy: bool,
      priceOf: PriceReader)
    requires AllOpen(g.venue) && !g.crashed && fd in g.sessions && g.sessions[fd].loggedIn
    ensures var g' := Deliver(g, fd, CancelFrame(orderId, userId, symbol, buy), priceOf);
      var key := Clean(Fit(symbol));
      && g'.venue.history == g.venue.history && g'.performed == g.performed + [Cancel(orderId, key)] && !g'.crashed
      && (forall s :: s != key ==> BookOf(g'.venue, s) == BookOf(g.venue, s))
      && if exists x :: x in BookOf(g.venue, key) && x.id == orderId
         then exists k :: CancelledAt(g, g', fd, orderId, userId, key, k)
         else NotFound(g, g', fd, orderId, userId, key, buy)
  {
    hide Clean, Fit, CancelFrame, CancelOrder, Deliver, MsgLen, BookOf, AllOpen, DecodeCancel, IndexOf, FromLE, ToLE,
         CancelReport, CancelledAt, NotFound, U64At;
    var p, key := CancelFrame(orderId, userId, symbol, buy), Clean(Fit(symbol));
    FieldsOfCancel(orderId, userId, symbol, buy);
    DecodeUndoesCancel(orderId, userId, symbol, buy);
    var g' := Deliver(g, fd, p, priceOf);
    CancelDelivered(g, fd, p, priceOf);
    CancelKeepsOthers(g.venue, orderId, key);
    CancelFits(g, g', fd, p, orderId, userId, key, buy);
    AnswerFits(g, g', fd, orderId, userId, key, buy);
  }

  lemma {:induction false} CancelFits(g: Gateway, g': Gateway, fd: int, p: Bytes, orderId: u64, userId: u64,
      key: Symbol, buy: bool)
    requires AllOpen(g.venue) && g'.venue == CancelOrder(g.venue, orderId, key).0
    requires |p| == 32 && U64At(p, 5) == orderId && U64At(p, 13) == userId && p[31] == if buy then 0 else 1
    requires g'.sent == g.sent + [(fd, CancelReport(p, CancelOrder(g.venue, orderId, key).1))]
    ensures var k := IndexOf(BookOf(g.venue, key), orderId);
      if k >= 0 then CancelledAt(g, g', fd, orderId, userId, key, k) else NotFound(g, g', fd, orderId, userId, key, buy)
  {
    hide IndexOf, CancelOrder, CancelReport, FromLE, BookOf, AllOpen, U64At;
    CancelTakes(g.venue, orderId, key);
    AnswerIs(p, orderId, userId, buy, CancelOrder(g.venue, orderId, key).1);
  }

  lemma {:induction false} AnswerFits(g: Gateway, g': Gateway, fd: int, orderId: u64, userId: u64, key: Symbol,
      buy: bool)
    requires var k := IndexOf(BookOf(g.venue, key), orderId);
      if k >= 0 then CancelledAt(g, g', fd, orderId, userId, key, k) else NotFound(g, g', fd, orderId, userId, key, buy)
    ensures if exists x :: x in BookOf(g.venue, key) && x.id == orderId
            then exists k :: CancelledAt(g, g', fd, orderId, userId, key, k)
            else NotFound(g, g', fd, orderId, userId, key, buy)
  {
    hide CancelledAt, NotFound, IndexOf, BookOf;
    var book := BookOf(g.venue, key);
    var k := IndexOf(book, orderId);
    if k >= 0 {
      assert book[k] in book;
    } else {
      forall x | x in book ensures x.id != orderId {
        var i :| 0 <= i < |book| && book[i] == x;
        assert !HasId(book, orderId);
      }
    }
  }

  lemma {:induction false} CancelDelivered(g: Gateway, fd: int, p: Bytes, priceOf: PriceReader)
    requires AllOpen(g.venue) && !g.crashed && fd in g.sessions && g.sessions[fd].loggedIn
    requires |p| == 32 && p[2] == 67 && DecodeCancel(p).Cancel?
    ensures var op, g' := DecodeCancel(p), Deliver(g, fd, p, priceOf);
      var (m', cancelled) := CancelOrder(g.venue, op.id, op.symbol);
      && g'.venue == m' && g'.performed == g.performed + [op] && !g'.crashed
      && g'.sent == g.sent + [(fd, CancelReport(p, cancelled))]
  {
    hide DecodeCancel, CancelOrder, CancelReport, Admissible;
    RunOne(g.venue, [DecodeCancel(p)]);
    ToOne(fd, CancelReport(p, CancelOrder(g.venue, DecodeCancel(p).id, DecodeCancel(p).symbol).1));
  }

  lemma {:induction false} CancelTakes(m: Venue, id: OrderID, key: Symbol)
    requires AllOpen(m)
    ensures var (m', cancelled) := CancelOrder(m, id, key);
      var k := IndexOf(BookOf(m, key), id);
      if k >= 0
      then cancelled == Some(BookOf(m, key)[k]) && m'.free == m.free + 1
           && BookOf(m', key) == BookOf(m, key)[..k] + BookOf(m, key)[k + 1..]
      else cancelled == None && m'.free == m.free && BookOf(m', key) == BookOf(m, key)
  {
    hide IndexOf;
  }

  lemma {:induction false} CancelKeepsOthers(m: Venue, id: OrderID, key: Symbol)
    requires AllOpen(m)
    ensures var m' := CancelOrder(m, id, key).0;
      m'.history == m.history && forall s :: s != key ==> BookOf(m', s) == BookOf(m, s)
  {
    hide IndexOf;
  }

  lemma {:induction false} AnswerIs(p: Bytes, orderId: u64, userId: u64, buy: bool, cancelled: Option<Order>)
    requires |p| == 32 && U64At(p, 5) == orderId && U64At(p, 13) == userId && p[31] == if buy then 0 else 1
    ensures CancelReport(p, cancelled) ==
      if cancelled.Some?
      then Report(orderId, userId, if cancelled.value.side == Buy then 0 else 1, cancelled.value.price,
                  cancelled.value.quantity, cancelled.value.filled, 3)
      else Report(orderId, userId, if buy then 0 else 1, 0.0, 0, 0, 4)
  {
    hide FromLE;
  }
}
