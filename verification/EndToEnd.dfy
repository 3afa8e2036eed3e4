/** From the Python gateway's orders to the engine's run, and from the event log back to it. */
module EndToEnd {
  import opened Types
  import opened Wire
  import opened OrderMessages
  import opened NaiveBook
  import opened ReferenceEngine
  import opened ReferenceRuns
  import opened ReferenceCounts

  /** Orders as one gateway sends them: numbered upward. */
  predicate Numbered(forms: seq<OrderForm>) {
    && (forall i :: 0 <= i < |forms| ==> |forms[i].priceBits| == 8)
    && forall i, j :: 0 <= i < j < |forms| ==> forms[i].orderId < forms[j].orderId
  }

  /** The arguments of a PlaceOrder call. */
  datatype Request = Request(userId: u64, symbol: Bytes, buy: bool, market: bool, priceBits: Bytes, quantity: u64)

  /** The orders that a sequence of calls makes, from the next number on. */
  function FormsOf(requests: seq<Request>, counter: nat): (forms: seq<OrderForm>)
    requires counter + |requests| < WRAP
    ensures |forms| == |requests|
  {
    seq(|requests|, i requires 0 <= i < |requests| =>
      var r := requests[i];
      OrderForm(counter + i + 1, r.userId, r.symbol, r.buy, r.market, r.priceBits, r.quantity))
  }

  predicate Packable(requests: seq<Request>) {
    forall i :: 0 <= i < |requests| ==> |requests[i].priceBits| == 8
  }

  lemma {:induction false} FormsAreNumbered(requests: seq<Request>, counter: nat)
    requires counter + |requests| < WRAP && Packable(requests)
    ensures Numbered(FormsOf(requests, counter))
  {
  }

  /** What arrives: what was meant, under the symbol that survives the trip. */
  function Arriving(f: OrderForm, priceOf: PriceReader): Order {
    Meant(f, priceOf).(symbol := Clean(Fit(f.symbol)))
  }

  function Frames(forms: seq<OrderForm>): (frames: seq<Bytes>)
    requires forall i :: 0 <= i < |forms| ==> |forms[i].priceBits| == 8
    ensures |frames| == |forms|
    ensures forall i :: 0 <= i < |forms| ==> frames[i] == OrderFrame(forms[i])
  {
    seq(|forms|, i requires 0 <= i < |forms| => OrderFrame(forms[i]))
  }

  function ArrivingOps(forms: seq<OrderForm>, priceOf: PriceReader): (ops: seq<Op>)
    ensures |ops| == |forms|
    ensures forall i :: 0 <= i < |forms| ==> ops[i] == New(Arriving(forms[i], priceOf))
  {
    seq(|forms|, i requires 0 <= i < |forms| => New(Arriving(forms[i], priceOf)))
  }

  /** A logged-in session that receives the frames performs the orders that arrive. */
  lemma {:induction false} FramesMean(forms: seq<OrderForm>, priceOf: PriceReader)
    requires forall i :: 0 <= i < |forms| ==> |forms[i].priceBits| == 8
    ensures forall i :: 0 <= i < |forms| ==> WellSized(Frames(forms)[i])
    ensures SessionEffect(true, Frames(forms), priceOf).ops == ArrivingOps(forms, priceOf)
    ensures SessionEffect(true, Frames(forms), priceOf).loggedIn
    decreases forms
  {
    hide PacketEffect, Arriving, OrderFrame, WellSized;
    forall i | 0 <= i < |forms| ensures WellSized(Frames(forms)[i]) {
      FrameIsOrder(forms[i]);
    }
    if forms != [] {
      FramesMean(forms[1..], priceOf);
      FramesTail(forms, priceOf);
      FrameMeans(forms[0], priceOf);
    }
  }

  lemma {:induction false} FramesTail(forms: seq<OrderForm>, priceOf: PriceReader)
    requires forms != [] && forall i :: 0 <= i < |forms| ==> |forms[i].priceBits| == 8
    ensures Frames(forms)[0] == OrderFrame(forms[0]) && Frames(forms)[1..] == Frames(forms[1..])
    ensures ArrivingOps(forms, priceOf) == [New(Arriving(forms[0], priceOf))] + ArrivingOps(forms[1..], priceOf)
  {
    hide OrderFrame, Arriving;
  }

  lemma {:induction false} FrameMeans(f: OrderForm, priceOf: PriceReader)
    requires |f.priceBits| == 8
    ensures PacketEffect(true, OrderFrame(f), priceOf)
         == Effect([New(Arriving(f, priceOf))], OrderFrame(f), true)
  {
    hide DecodeOrder, OrderFrame, Meant, Clean, Fit, MsgLen;
    FrameIsOrder(f);
    DecodeUndoesPack(f, priceOf);
    assert OrderFrame(f)[..NEW_ORDER_SIZE] == OrderFrame(f);
  }

  lemma {:induction false} FrameIsOrder(f: OrderForm)
    requires |f.priceBits| == 8
    ensures var p := OrderFrame(f);
      |p| == NEW_ORDER_SIZE == MsgLen(p) && MsgType(p) == NEW_ORDER && WellSized(p)
  {
    hide MsgLen, OrderFrame;
    FieldsOfFrame(f);
  }

  /** Orders framed by the Python gateway, however the stream is cut into reads, reach the engine one for
      one with identifier, user, side, type, price and quantity as sent, and with the symbol as sent
      exactly when it has at most ten bytes, no NUL and no trailing white space; and they form a run with
      unique identifiers. */
  lemma {:induction false} OrdersArriveAsMeant(forms: seq<OrderForm>, chunks: seq<Bytes>, priceOf: PriceReader)
    requires Numbered(forms)
    ensures Concat(chunks) == Concat(Frames(forms)) ==>
      var parsed := Feed(MAX_PACKET, [], chunks);
      && parsed == Parsed(Frames(forms), [])
      && (forall i :: 0 <= i < |parsed.packets| ==> WellSized(parsed.packets[i]))
      && SessionEffect(true, parsed.packets, priceOf).ops == ArrivingOps(forms, priceOf)
    ensures forall i :: 0 <= i < |forms| ==>
      (ArrivingOps(forms, priceOf)[i].order == Meant(forms[i], priceOf) <==> Travels(forms[i].symbol))
    ensures WellPosed(ArrivingOps(forms, priceOf))
  {
    hide Frames, ArrivingOps, OrderFrame, Clean, Fit, Parse, Concat, Feed, SessionEffect, WellSized, Travels;
    forall i | 0 <= i < |forms| ensures |Frames(forms)[i]| == NEW_ORDER_SIZE == MsgLen(Frames(forms)[i]) {
      FrameIsOrder(forms[i]);
    }
    FramesMean(forms, priceOf);
    if Concat(chunks) == Concat(Frames(forms)) {
      ChunkingIsIrrelevant(MAX_PACKET, [], chunks);
      assert [] + Concat(chunks) == Concat(chunks);
      ParseFrames(MAX_PACKET, Frames(forms));
    }
    forall i | 0 <= i < |forms|
      ensures ArrivingOps(forms, priceOf)[i].order == Meant(forms[i], priceOf) <==> Travels(forms[i].symbol)
    {
      SymbolSurvivesIff(forms[i].symbol);
    }
  }

  // ---------------------------------------------------------------- slots lost over the wire

  /** A market order for one share of symbol A, as a client can send it. */
  function MarketForm(id: u64, priceBits: Bytes): (f: OrderForm)
    ensures f.priceBits == priceBits
  {
    OrderForm(id, 1, [65], true, true, priceBits, 1)
  }

  function MarketForms(n: nat, priceBits: Bytes): (forms: seq<OrderForm>)
    requires n < WRAP
    ensures |forms| == n && forall i :: 0 <= i < n ==> forms[i] == MarketForm(i + 1, priceBits)
  {
    seq(n, i requires 0 <= i < n => MarketForm(i + 1, priceBits))
  }

  /** The wire carries no fill-or-kill orders, but market orders do: as many as there are slots, sent to an
      empty engine, take every slot for good, and nothing trades ever after. */
  lemma {:induction false} MarketOrdersExhaustThePool(capacity: nat, priceBits: Bytes, later: seq<Op>,
      priceOf: PriceReader)
    requires capacity < WRAP && |priceBits| == 8 && priceOf(priceBits) == 1.0 && Unfilled(later)
    ensures var m := Run(Start(capacity), SessionEffect(true, Frames(MarketForms(capacity, priceBits)), priceOf).ops);
      Exhausted(m) && Run(m, later).history == []
  {
    hide Frames, SessionEffect, Clean, Fit, Run, Exhausted;
    var forms := MarketForms(capacity, priceBits);
    FramesMean(forms, priceOf);
    SymbolSurvivesIff([65]);
    assert Clean(Fit([65])) == [65];
    assert ArrivingOps(forms, priceOf) == UnfillableOrders(Market, capacity);
    UnfillablesExhaustThePool(Market, capacity, later);
  }

  // ---------------------------------------------------------------- replay and cancels

  /** With a cancel in the session the log no longer does: an order that was cancelled comes back. */
  lemma {:induction false} ReplayForgetsCancel(capacity: nat, place: Bytes, cancel: Bytes, priceOf: PriceReader)
    requires capacity > 0 && WellSized(place) && WellSized(cancel)
    requires MsgType(place) == NEW_ORDER && MsgType(cancel) == ORDER_CANCEL
    requires var o := DecodeOrder(place, priceOf);
      IsValidOrder(o) && o.kind.Limit? && DecodeCancel(cancel) == Cancel(o.id, o.symbol)
    ensures var o := DecodeOrder(place, priceOf);
      var e := SessionEffect(true, [place, cancel], priceOf);
      && BookOf(Run(Start(capacity), e.ops), o.symbol) == []
      && BookOf(Run(Start(capacity), ReplayOps(e.log, priceOf)), o.symbol) == [o]
  {
    TwoPackets(place, cancel, priceOf);
    ReplayOfTwo(place, cancel, priceOf);
    PlacedThenCancelled(capacity, DecodeOrder(place, priceOf));
    hide DecodeOrder, SessionEffect, ReplayOps, DecodeCancel, IsValidOrder, Run;
  }

  lemma {:induction false} PlacedThenCancelled(capacity: nat, o: Order)
    requires capacity > 0 && IsValidOrder(o) && o.kind.Limit? && o.filled == 0
    ensures BookOf(Run(Start(capacity), [New(o)]), o.symbol) == [o]
    ensures BookOf(Run(Start(capacity), [New(o), Cancel(o.id, o.symbol)]), o.symbol) == []
  {
    LoneOrderRests(capacity, o);
    hide NewOrder, IsValidOrder, Run;
    assert [New(o)] + [Cancel(o.id, o.symbol)] == [New(o), Cancel(o.id, o.symbol)];
    RunSnoc(Start(capacity), [New(o)], Cancel(o.id, o.symbol));
    CancelsLoneOrder(Run(Start(capacity), [New(o)]), o);
  }

  lemma {:induction false} TwoPackets(place: Bytes, cancel: Bytes, priceOf: PriceReader)
    requires WellSized(place) && WellSized(cancel) && MsgType(place) == NEW_ORDER && MsgType(cancel) == ORDER_CANCEL
    ensures SessionEffect(true, [place, cancel], priceOf)
         == Effect([New(DecodeOrder(place, priceOf)), DecodeCancel(cancel)],
                   place[..NEW_ORDER_SIZE] + cancel[..ORDER_CANCEL_SIZE], true)
  {
    hide DecodeOrder, DecodeCancel;
    assert [place, cancel][1..] == [cancel] && [cancel][1..] == [];
    assert SessionEffect(true, [cancel], priceOf)
        == Effect([DecodeCancel(cancel)] + [], cancel[..ORDER_CANCEL_SIZE] + [], true);
  }

  lemma {:induction false} ReplayOfTwo(place: Bytes, cancel: Bytes, priceOf: PriceReader)
    requires |place| >= NEW_ORDER_SIZE && |cancel| >= ORDER_CANCEL_SIZE
    ensures ReplayOps(place[..NEW_ORDER_SIZE] + cancel[..ORDER_CANCEL_SIZE], priceOf)
         == [New(DecodeOrder(place, priceOf))]
  {
    hide DecodeOrder;
    var rec, tail := place[..NEW_ORDER_SIZE], cancel[..ORDER_CANCEL_SIZE];
    RecordsAppend(rec, tail);
    assert rec[..NEW_ORDER_SIZE] == rec && rec[NEW_ORDER_SIZE..] == [];
    assert Records([]) == [] && Records(tail) == [];
    assert Records(rec) == [rec];
    DecodeFromRecord(place, priceOf);
    assert [rec] + [] == [rec];
  }

  lemma {:induction false} NothingToMatch(o: Order)
    requires IsValidOrder(o) && o.kind.Limit? && o.filled == 0
    ensures Handle([], o) == Handled([], [o], Rested, 0)
  {
    assert !CanTrade([], o);
    assert Sweep([], o) == Swept([], o, []);
  }

  lemma {:induction false} LoneOrderRests(capacity: nat, o: Order)
    requires capacity > 0 && IsValidOrder(o) && o.kind.Limit? && o.filled == 0
    ensures BookOf(Run(Start(capacity), [New(o)]), o.symbol) == [o]
    ensures Run(Start(capacity), [New(o)]).books.Keys == {o.symbol}
    ensures Run(Start(capacity), [New(o)]).free == capacity - 1
  {
    NothingToMatch(o);
    hide Handle, IsValidOrder;
    assert BookOf(Start(capacity), o.symbol) == [];
    assert BookOf(NewOrder(Start(capacity), o).0, o.symbol) == [o];
    assert [New(o)][..0] == [];
  }

  lemma {:induction false} CancelsLoneOrder(m: Venue, o: Order)
    requires AllOpen(m) && BookOf(m, o.symbol) == [o]
    ensures BookOf(CancelOrder(m, o.id, o.symbol).0, o.symbol) == []
  {
  }
}
