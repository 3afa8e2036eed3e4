/** What a call may do, with every comparison written out: which orders are admitted, who is buyer and who is
    seller in a trade, at whose price and within whose limit, how much trades and what is left; and what that
    makes of the trade history of any run. */
module ReferenceTrades {
  import opened Types
  import opened NaiveBook
  import opened SweepLaws
  import opened FillOrKill
  import opened ReferenceEngine
  import opened ReferenceRuns

  // ---------------------------------------------------------------- admission

  /** A call has no effect at all unless a slot is free, the quantity is positive, the symbol is not empty and
      the price is positive; a price of zero will do for every type but LIMIT.  Otherwise it opens its book. */
  lemma {:induction false} AdmittedIff(m: Venue, o: Order)
    requires AllOpen(m) && o.filled == 0
    ensures if m.free > 0 && o.quantity > 0 && |o.symbol| > 0 && (o.price > 0.0 || (o.price == 0.0 && o.kind != Limit))
            then o.symbol in NewOrder(m, o).0.books
            else NewOrder(m, o) == (m, [])
  {
    hide Handle;
  }

  // ---------------------------------------------------------------- one call

  /** A trade of a call is with an order x of the other side, at the price of x and for no more than x has
      left; the buyer in it is the one that buys, and the price is within the limit of the order that came. */
  predicate TradesWith(t: Trade, o: Order, x: Order) {
    && x.side != o.side && x.price == t.price && 0 < t.quantity <= x.quantity - x.filled
    && t.symbol == (if o.side == Buy then o.symbol else x.symbol)
    && (if o.side == Buy
        then t.buyOrderId == o.id && t.buyUserId == o.userId && t.sellOrderId == x.id && t.sellUserId == x.userId
        else t.sellOrderId == o.id && t.sellUserId == o.userId && t.buyOrderId == x.id && t.buyUserId == x.userId)
  }

  lemma {:induction false} TradeTerms(m: Venue, o: Order, k: nat)
    requires AllOpen(m) && o.filled == 0 && k < |NewOrder(m, o).1|
    ensures var t := NewOrder(m, o).1[k];
      && (o.kind == Market || (if o.side == Buy then t.price <= o.price else t.price >= o.price))
      && t.quantity <= o.quantity
      && exists x :: x in BookOf(m, o.symbol) && TradesWith(t, o, x)
  {
    hide NewOrder, Queue, Remaining, SumQuantity;
    var book, trades := BookOf(m, o.symbol), NewOrder(m, o).1;
    NewOrderTakesInOrder(m, o);
    QueueIsSorted(book, o.side.Opposite(), o.side.Buy?);
    var x := Facing(book, o)[k];
    assert x in Facing(book, o);
    assert TradesWith(trades[k], o, x);
    PartOfSum(trades, k);
  }

  lemma {:induction false} PartOfSum(trades: seq<Trade>, k: nat)
    requires k < |trades|
    ensures trades[k].quantity <= SumQuantity(trades)
  {
    if k > 0 {
      PartOfSum(trades[1..], k - 1);
    }
  }

  /** What rests on the other side within the order's limit: for a MARKET order everything there. */
  function Reachable(book: Book, o: Order): int {
    if book == [] then 0
    else
      var x := book[0];
      var within := o.kind == Market || (if o.side == Buy then x.price <= o.price else x.price >= o.price);
      (if x.side != o.side && within then x.quantity - x.filled else 0) + Reachable(book[1..], o)
  }

  lemma {:induction false} EligibleIsReachable(book: Book, o: Order)
    ensures Eligible(book, o) == Reachable(book, o)
  {
    if book != [] {
      EligibleIsReachable(book[1..], o);
      var f := IsEligible(o.side, o.kind, o.price);
      TotalConcat(if f(book[0]) then [book[0]] else [], Filter(book[1..], f));
      TotalOfOne(book[0]);
    }
  }

  /** How much a call trades: the lesser of what the order wants and what it can reach, unless it is refused
      or is a fill-or-kill order that the scan kills. */
  lemma {:induction false} TradesWhatItCanReach(m: Venue, o: Order)
    requires AllOpen(m) && o.filled == 0
    ensures var reachable := Reachable(BookOf(m, o.symbol), o);
      var refused := m.free == 0 || o.quantity == 0 || o.symbol == []
                     || o.price < 0.0 || (o.price == 0.0 && o.kind == Limit);
      var killed := o.kind == OrderType.FillOrKill && !ScanAccepts(BookOf(m, o.symbol), o);
      SumQuantity(NewOrder(m, o).1)
      == if refused || killed then 0 else if reachable < o.quantity then reachable else o.quantity
  {
    hide NewOrder, ScanAccepts, Eligible, Reachable, SumQuantity;
    EligibleIsReachable(BookOf(m, o.symbol), o);
    NewOrderTradesExactly(m, o);
  }

  /** An order that was let through and is not completed has nothing left to trade with: a MARKET order no
      order of the other side at all, any other none within its limit. */
  lemma {:induction false} NothingInReachIsLeft(m: Venue, o: Order, x: Order)
    requires AllOpen(m) && o.filled == 0 && Admitted(m, o) && SumQuantity(NewOrder(m, o).1) < o.quantity
    requires !(o.kind == OrderType.FillOrKill && !ScanAccepts(BookOf(m, o.symbol), o))
    requires x in BookOf(NewOrder(m, o).0, o.symbol) && x.side != o.side
    ensures o.kind != Market && if o.side == Buy then x.price > o.price else x.price < o.price
  {
    hide Sweep, ScanAccepts, Filter, SumQuantity;
    var book := BookOf(m, o.symbol);
    var r := Sweep(book, o);
    SweepFillIsVolume(book, o);
    NothingEligible(r.book, r.taker);
    FilterMembers(r.book, IsEligible(r.taker.side, r.taker.kind, r.taker.price), x);
  }

  /** The three counters, in words of 64 bits: orders that came to rest, trades, and the quantity traded. */
  lemma {:induction false} CountersMove(m: Venue, o: Order)
    requires AllOpen(m) && o.filled == 0
    ensures var (m', trades) := NewOrder(m, o);
      var rests := Admitted(m, o) && (o.kind == Limit || o.kind == GoodForDay) && SumQuantity(trades) < o.quantity;
      && m'.totalOrders == (m.totalOrders + if rests then 1 else 0) % 0x1_0000_0000_0000_0000
      && m'.totalTrades == (m.totalTrades + |trades|) % 0x1_0000_0000_0000_0000
      && m'.totalVolume == (m.totalVolume + SumQuantity(trades)) % 0x1_0000_0000_0000_0000
  {
    hide Sweep, ScanAccepts;
    assert SumQuantity([]) == 0;
    if Admitted(m, o) {
      var book := BookOf(m, o.symbol);
      SweepFillIsVolume(book, o);
      if o.kind == OrderType.FillOrKill && ScanAccepts(book, o) {
        AcceptedIsCompleted(book, o);
      }
    }
  }

  // ---------------------------------------------------------------- the history of a run

  /** The operation is an order of that side, identity and symbol, MARKET or with a limit that admits the price. */
  predicate IsParty(op: Op, side: Side, id: OrderID, user: UserID, t: Trade) {
    && op.New? && op.order.side == side && op.order.id == id && op.order.userId == user && op.order.symbol == t.symbol
    && (op.order.kind == Market || (if side == Buy then t.price <= op.order.price else t.price >= op.order.price))
    && t.quantity <= op.order.quantity
  }

  predicate IsBuyer(op: Op, t: Trade) {
    IsParty(op, Buy, t.buyOrderId, t.buyUserId, t)
  }

  predicate IsSeller(op: Op, t: Trade) {
    IsParty(op, Sell, t.sellOrderId, t.sellUserId, t)
  }

  /** Two submitted orders stand behind the trade, a buyer and a seller that both admit its price, which is
      the price of the one that came first. */
  predicate IsFair(t: Trade, ops: seq<Op>) {
    && t.quantity > 0
    && exists i, j ::
         && 0 <= i < |ops| && 0 <= j < |ops| && i != j && IsBuyer(ops[i], t) && IsSeller(ops[j], t)
         && t.price == ops[if i < j then i else j].order.price
  }

  lemma {:induction false} FairLater(t: Trade, ops: seq<Op>)
    requires ops != [] && IsFair(t, ops[..|ops| - 1])
    ensures IsFair(t, ops)
  {
    var before := ops[..|ops| - 1];
    var i, j :| && 0 <= i < |before| && 0 <= j < |before| && i != j && IsBuyer(before[i], t) && IsSeller(before[j], t)
                && t.price == before[if i < j then i else j].order.price;
    assert before[i] == ops[i] && before[j] == ops[j];
  }

  lemma {:induction false} NewTradeIsFair(m: Venue, ops: seq<Op>, k: nat)
    requires ops != [] && ops[|ops| - 1].New? && ops[|ops| - 1].order.filled == 0 && AllOpen(m)
    requires var o := ops[|ops| - 1].order;
      k < |NewOrder(m, o).1| && Sound(BookOf(m, o.symbol), o.symbol, ops[..|ops| - 1])
    ensures IsFair(NewOrder(m, ops[|ops| - 1].order).1[k], ops)
  {
    hide NewOrder, BookOf, Uncrossed, AllOpen, Open;
    var n := |ops| - 1;
    var o := ops[n].order;
    var t := NewOrder(m, o).1[k];
    TradeTerms(m, o, k);
    var x :| x in BookOf(m, o.symbol) && TradesWith(t, o, x);
    assert x.symbol == o.symbol && CameFrom(x, ops[..n]);
    var i :| 0 <= i < n && ops[..n][i].New? && SameOrder(x, ops[..n][i].order);
    assert ops[..n][i] == ops[i];
    if o.side == Buy {
      assert IsBuyer(ops[n], t) && IsSeller(ops[i], t);
    } else {
      assert IsBuyer(ops[i], t) && IsSeller(ops[n], t);
    }
  }

  /** Every trade in the history of every run is fair, whatever the order types and identifiers. */
  lemma {:induction false} HistoryIsFair(capacity: nat, ops: seq<Op>, k: nat)
    requires Unfilled(ops) && k < |Run(Start(capacity), ops).history|
    ensures IsFair(Run(Start(capacity), ops).history[k], ops)
  {
    hide IsFair, NewOrder, Sound, IndexOf, BookOf;
    if ops != [] {
      var n := |ops| - 1;
      var m := Run(Start(capacity), ops[..n]);
      if k < |m.history| {
        HistoryIsFair(capacity, ops[..n], k);
        FairLater(m.history[k], ops);
        HistoryGrows(m, ops[n]);
      } else {
        HistoryGrows(m, ops[n]);
        BooksStaySound(capacity, ops[..n], ops[n].order.symbol);
        NewTradeIsFair(m, ops, k - |m.history|);
      }
    }
  }

  lemma {:induction false} HistoryGrows(m: Venue, op: Op)
    requires AllOpen(m) && (op.New? ==> op.order.filled == 0)
    ensures Step(m, op).0.history == m.history + if op.New? then NewOrder(m, op.order).1 else []
  {
    hide Handle, IndexOf;
    assert m.history + [] == m.history;
  }
}
