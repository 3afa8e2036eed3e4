/** What a sweep does, for every open book and every taker. */
module SweepLaws {
  import opened Types
  import opened NaiveBook

  // ---------------------------------------------------------------- conservation and exact fill

  /** One trade of a sweep, then the rest of it. */
  lemma {:induction false} SweepUnfolds(book: Book, taker: Order)
    requires Open(book) && CanTrade(book, taker)
    ensures var k, qty := Maker(book, taker), TradedQty(book, taker);
      var next, taker' := AfterTrade(book, k, qty), taker.Fill(qty);
      && Open(next)
      && var r, rest := Sweep(book, taker), Sweep(next, taker');
      && r.trades == [TradeBetween(taker, book[k], qty)] + rest.trades && r.trades[1..] == rest.trades
      && r.taker == rest.taker && r.book == rest.book
  {
    AfterTradeOpen(book, Maker(book, taker), TradedQty(book, taker));
  }

  /** The taker's fill is exactly the volume traded ... */
  lemma {:induction false} SweepFillIsVolume(book: Book, taker: Order)
    requires Open(book) && taker.filled <= taker.quantity
    ensures Sweep(book, taker).taker.filled - taker.filled == SumQuantity(Sweep(book, taker).trades)
    decreases taker.Left()
  {
    if CanTrade(book, taker) {
      SweepUnfolds(book, taker);
      var k, qty := Maker(book, taker), TradedQty(book, taker);
      SweepFillIsVolume(AfterTrade(book, k, qty), taker.Fill(qty));
    }
  }

  /** ... which is what the other side lost; the taker's own side is untouched. */
  lemma {:induction false} SweepConserves(book: Book, taker: Order)
    requires Open(book) && taker.filled <= taker.quantity
    ensures var r, other := Sweep(book, taker), taker.side.Opposite();
      && Total(OnSide(book, other)) - Total(OnSide(r.book, other)) == SumQuantity(r.trades)
      && OnSide(r.book, taker.side) == OnSide(book, taker.side)
    decreases taker.Left()
  {
    hide First, Filter, Total;
    if CanTrade(book, taker) {
      SweepUnfolds(book, taker);
      var k, qty := Maker(book, taker), TradedQty(book, taker);
      SweepConserves(AfterTrade(book, k, qty), taker.Fill(qty));
      TotalAround(book, k, qty, IsOnSide(taker.side.Opposite()));
      assert OnSide(AfterTrade(book, k, qty), taker.side) == OnSide(book, taker.side) by {
        FilterAround(book, k, book[k].Fill(qty), IsOnSide(taker.side));
      }
    }
  }

  function IsEligible(side: Side, kind: OrderType, limit: Price): Order -> bool {
    (o: Order) => o.side == side.Opposite() && Crosses(side, kind, limit, o.price)
  }

  /** All the quantity resting within the taker's reach, without wrap. */
  function Eligible(book: Book, taker: Order): int {
    Total(Filter(book, IsEligible(taker.side, taker.kind, taker.price)))
  }

  lemma {:induction false} NothingEligible(book: Book, taker: Order)
    requires taker.IsOpen() && !CanTrade(book, taker)
    ensures Filter(book, IsEligible(taker.side, taker.kind, taker.price)) == []
  {
    FilterNone(book, IsEligible(taker.side, taker.kind, taker.price));
  }

  lemma {:induction false} EligibleNonNegative(book: Book, f: Order -> bool)
    requires Open(book)
    ensures Total(Filter(book, f)) >= 0
  {
    if book != [] {
      EligibleNonNegative(book[1..], f);
      TotalConcat(if f(book[0]) then [book[0]] else [], Filter(book[1..], f));
    }
  }

  /** A sweep trades exactly as much as the taker wants or the book can give, whichever is less. */
  lemma {:induction false} SweepFillsExactly(book: Book, taker: Order)
    requires Open(book) && taker.filled <= taker.quantity
    ensures SumQuantity(Sweep(book, taker).trades) == Min(taker.Left(), Eligible(book, taker))
    decreases taker.Left()
  {
    EligibleNonNegative(book, IsEligible(taker.side, taker.kind, taker.price));
    if CanTrade(book, taker) {
      var k, qty := Maker(book, taker), TradedQty(book, taker);
      AfterTradeOpen(book, k, qty);
      var next := AfterTrade(book, k, qty);
      SweepFillsExactly(next, taker.Fill(qty));
      TotalAround(book, k, qty, IsEligible(taker.side, taker.kind, taker.price));
      EligibleNonNegative(next, IsEligible(taker.side, taker.kind, taker.price));
      var rest := Sweep(next, taker.Fill(qty));
      assert Sweep(book, taker).trades[1..] == rest.trades;
    } else if taker.IsOpen() {
      NothingEligible(book, taker);
    }
  }

  // ---------------------------------------------------------------- price-time priority

  /** The opposite side in the order the taker meets it. */
  function Facing(book: Book, taker: Order): Book {
    Queue(book, taker.side.Opposite(), taker.side.Buy?)
  }

  lemma {:induction false} FacingAfterTrade(book: Book, taker: Order)
    requires Open(book) && CanTrade(book, taker)
    ensures var k, qty := Maker(book, taker), TradedQty(book, taker);
      && Facing(book, taker) == [book[k]] + Facing(Drop(book, k), taker)
      && (qty < book[k].Left() ==>
            Facing(book[k := book[k].Fill(qty)], taker) == [book[k].Fill(qty)] + Facing(Drop(book, k), taker))
  {
    var k, qty := Maker(book, taker), TradedQty(book, taker);
    if qty < book[k].Left() {
      var book' := book[k := book[k].Fill(qty)];
      FirstIsUnique(book', taker.side.Opposite(), taker.side.Buy?, k);
      assert Drop(book', k) == Drop(book, k);
    }
  }

  /** The i-th trade is with the i-th order in priority, at that order's price and within the taker's
      limit, and takes all of it unless it is the trade that completes the taker. */
  predicate TakesInOrder(r: Swept, taker: Order, queue: Book) {
    && |r.trades| <= |queue|
    && forall i :: 0 <= i < |r.trades| ==>
         && r.trades[i] == TradeBetween(taker, queue[i], r.trades[i].quantity)
         && WouldTrade(taker, queue[i].price)
         && 0 < r.trades[i].quantity <= queue[i].Left()
         && (r.trades[i].quantity < queue[i].Left() ==> i == |r.trades| - 1 && !r.taker.IsOpen())
  }

  /** What the other side looks like afterwards: the untouched tail, headed by the part-filled maker if any. */
  function Remaining(trades: seq<Trade>, queue: Book): Book
    requires |trades| <= |queue|
    requires forall i :: 0 <= i < |trades| ==> trades[i].quantity <= queue[i].Left()
  {
    var n := |trades|;
    if n > 0 && trades[n - 1].quantity < queue[n - 1].Left()
    then [queue[n - 1].Fill(trades[n - 1].quantity)] + queue[n..]
    else queue[n..]
  }

  lemma {:induction false} TakeWhole(rest: Swept, taker: Order, taker': Order, o: Order, queue: Book)
    requires 0 < o.Left() <= taker.Left() && taker' == taker.Fill(o.Left()) && WouldTrade(taker, o.price)
    requires TakesInOrder(rest, taker', queue)
    ensures var r := Swept([TradeBetween(taker, o, o.Left())] + rest.trades, rest.taker, rest.book);
      TakesInOrder(r, taker, [o] + queue) && Remaining(r.trades, [o] + queue) == Remaining(rest.trades, queue)
  {
    var trades, queue1 := [TradeBetween(taker, o, o.Left())] + rest.trades, [o] + queue;
    forall i | 0 < i < |trades| ensures trades[i] == rest.trades[i - 1] && queue1[i] == queue[i - 1] {
    }
    assert queue1[|trades|..] == queue[|rest.trades|..];
  }

  lemma {:induction false} SweepTakesInOrder(book: Book, taker: Order)
    requires Open(book) && taker.filled <= taker.quantity
    ensures var r := Sweep(book, taker);
      && TakesInOrder(r, taker, Facing(book, taker))
      && Facing(r.book, taker) == Remaining(r.trades, Facing(book, taker))
    decreases taker.Left()
  {
    hide First, Queue;
    if CanTrade(book, taker) {
      var k, qty := Maker(book, taker), TradedQty(book, taker);
      AfterTradeOpen(book, k, qty);
      var next, taker' := AfterTrade(book, k, qty), taker.Fill(qty);
      FacingAfterTrade(book, taker);
      if qty == book[k].Left() {
        SweepTakesInOrder(next, taker');
        assert Facing(next, taker) == Facing(next, taker');
        TakeWhole(Sweep(next, taker'), taker, taker', book[k], Facing(next, taker'));
      } else {
        assert Sweep(next, taker') == Swept([], taker', next);
      }
    } else {
      assert Facing(book, taker)[0..] == Facing(book, taker);
    }
  }

  /** Price-time priority of a whole sweep: trades run through a price-sorted, arrival-stable queue, so
      successive prices only worsen for the taker and never pass its limit. */
  lemma {:induction false} SweepPricesWorsen(book: Book, taker: Order)
    requires Open(book) && taker.filled <= taker.quantity
    ensures var trades := Sweep(book, taker).trades;
      && (forall i :: 0 <= i < |trades| ==>
            taker.kind == Market || (if taker.side == Buy then trades[i].price <= taker.price
                                     else trades[i].price >= taker.price))
      && forall i, j :: 0 <= i < j < |trades| ==>
           if taker.side.Buy? then trades[i].price <= trades[j].price else trades[i].price >= trades[j].price
  {
    SweepTakesInOrder(book, taker);
    QueueIsSorted(book, taker.side.Opposite(), taker.side.Buy?);
    var r, queue := Sweep(book, taker), Facing(book, taker);
    forall i | 0 <= i < |r.trades| ensures r.trades[i].price == queue[i].price {
      assert r.trades[i] == TradeBetween(taker, queue[i], r.trades[i].quantity);
    }
  }

  lemma {:induction false} SweepKeepsLimit(book: Book, taker: Order)
    requires Open(book) && taker.filled <= taker.quantity
    ensures taker.kind != Market && taker.side == Buy ==>
      forall i :: 0 <= i < |Sweep(book, taker).trades| ==> Sweep(book, taker).trades[i].price <= taker.price
    ensures taker.kind != Market && taker.side == Sell ==>
      forall i :: 0 <= i < |Sweep(book, taker).trades| ==> Sweep(book, taker).trades[i].price >= taker.price
  {
    hide Sweep;
    SweepPricesWorsen(book, taker);
  }

  /** Every trade but one that completes the taker removes a maker. */
  lemma {:induction false} SweepIsAmortised(book: Book, taker: Order)
    requires Open(book) && taker.IsOpen()
    ensures var r := Sweep(book, taker);
      |r.trades| + |r.book| <= |book| + if r.taker.IsOpen() then 0 else 1
    decreases taker.Left()
  {
    if CanTrade(book, taker) {
      var k, qty := Maker(book, taker), TradedQty(book, taker);
      AfterTradeOpen(book, k, qty);
      if qty < taker.Left() {
        SweepIsAmortised(AfterTrade(book, k, qty), taker.Fill(qty));
      }
    }
  }

  // ---------------------------------------------------------------- the book after a sweep

  /** x is y up to its fill. */
  predicate SameOrder(x: Order, y: Order) {
    x == y.(filled := x.filled)
  }

  lemma {:induction false} SweepKeepsOrders(book: Book, taker: Order, x: Order)
    requires Open(book) && taker.filled <= taker.quantity
    requires x in Sweep(book, taker).book
    ensures exists y :: y in book && SameOrder(x, y)
    decreases taker.Left()
  {
    if CanTrade(book, taker) {
      var k, qty := Maker(book, taker), TradedQty(book, taker);
      AfterTradeOpen(book, k, qty);
      var next := AfterTrade(book, k, qty);
      SweepKeepsOrders(next, taker.Fill(qty), x);
      var z :| z in next && SameOrder(x, z);
      if z !in book {
        assert z == book[k].Fill(qty) && SameOrder(x, book[k]);
      }
    } else {
      assert SameOrder(x, x);
    }
  }

  lemma {:induction false} SweepKeepsIdsUnique(book: Book, taker: Order)
    requires Open(book) && taker.filled <= taker.quantity && UniqueIds(book)
    ensures UniqueIds(Sweep(book, taker).book)
    decreases taker.Left()
  {
    if CanTrade(book, taker) {
      var k, qty := Maker(book, taker), TradedQty(book, taker);
      AfterTradeOpen(book, k, qty);
      SweepKeepsIdsUnique(AfterTrade(book, k, qty), taker.Fill(qty));
    }
  }

  /** No bid reaches any ask. */
  predicate Uncrossed(book: Book) {
    forall b, a :: b in book && a in book && b.side.Buy? && a.side.Sell? ==> b.price < a.price
  }

  /** An uncrossed book stays uncrossed, also when what is left of a limited taker is appended to it. */
  lemma {:induction false} SweepUncrossed(book: Book, taker: Order)
    requires Open(book) && taker.filled <= taker.quantity && Uncrossed(book)
    ensures var r := Sweep(book, taker);
      && Uncrossed(r.book)
      && (r.taker.IsOpen() && !taker.kind.Market? ==> Uncrossed(r.book + [r.taker]))
  {
    var r := Sweep(book, taker);
    forall b, a | b in r.book && a in r.book && b.side.Buy? && a.side.Sell? ensures b.price < a.price {
      SweepKeepsOrders(book, taker, b);
      SweepKeepsOrders(book, taker, a);
    }
    if r.taker.IsOpen() {
      NothingEligible(r.book, r.taker);
      forall x | x in r.book && x.side == taker.side.Opposite() ensures !WouldTrade(r.taker, x.price) {
        FilterMembers(r.book, IsEligible(r.taker.side, r.taker.kind, r.taker.price), x);
      }
    }
  }

  // ---------------------------------------------------------------- the ledger of one sweep

  function IndexOf(book: Book, id: OrderID): (k: int)
    ensures -1 <= k < |book|
    ensures k == -1 <==> !HasId(book, id)
    ensures 0 <= k ==> book[k].id == id
  {
    if book == [] then -1
    else if book[0].id == id then 0
    else
      var k := IndexOf(book[1..], id);
      assert HasId(book[1..], id) ==> HasId(book, id) by {
        if HasId(book[1..], id) {
          var j :| 0 <= j < |book[1..]| && book[1..][j].id == id;
          assert book[j + 1].id == id;
        }
      }
      assert HasId(book, id) ==> HasId(book[1..], id) by {
        if HasId(book, id) {
          var j :| 0 <= j < |book| && book[j].id == id;
          assert book[1..][j - 1].id == id;
        }
      }
      if k == -1 then -1 else k + 1
  }

  function Get(book: Book, id: OrderID): Option<Order> {
    var k := IndexOf(book, id);
    if k == -1 then None else Some(book[k])
  }

  lemma {:induction false} GetIs(book: Book, id: OrderID)
    requires UniqueIds(book)
    ensures Get(book, id).None? <==> !HasId(book, id)
    ensures forall k :: 0 <= k < |book| && book[k].id == id ==> IndexOf(book, id) == k && Get(book, id) == Some(book[k])
    ensures Get(book, id).Some? ==> Get(book, id).value in book && Get(book, id).value.id == id
  {
    hide IndexOf;
  }

  lemma {:induction false} GetUnless(book: Book, other: Book, id: OrderID)
    requires UniqueIds(book) && UniqueIds(other)
    requires forall o: Order :: o.id == id ==> (o in book <==> o in other)
    ensures Get(book, id) == Get(other, id)
  {
    hide IndexOf;
    GetIs(book, id);
    GetIs(other, id);
  }

  lemma {:induction false} GetAround(book: Book, k: nat, o: Order, id: OrderID)
    requires UniqueIds(book) && k < |book| && o.id == book[k].id
    ensures UniqueIds(Drop(book, k)) && UniqueIds(book[k := o])
    ensures Get(Drop(book, k), id) == if id == o.id then None else Get(book, id)
    ensures Get(book[k := o], id) == if id == o.id then Some(o) else Get(book, id)
  {
    hide Get, IndexOf;
    var dropped, updated := Drop(book, k), book[k := o];
    if id == o.id {
      GetIs(dropped, id);
      GetIs(updated, id);
      assert updated[k] == o;
    } else {
      forall x | x in book && x.id == id ensures x in dropped && x in updated {
        var j :| 0 <= j < |book| && book[j] == x;
        assert updated[j] == x && dropped[if j < k then j else j - 1] == x;
      }
      GetUnless(book, dropped, id);
      GetUnless(book, updated, id);
    }
  }

  lemma {:induction false} UniqueAppended(book: Book, o: Order)
    requires UniqueIds(book)
    ensures UniqueIds(book + [o]) <==> !HasId(book, o.id)
  {
    var book' := book + [o];
    assert book'[|book|] == o;
    if HasId(book, o.id) {
      var k :| 0 <= k < |book| && book[k].id == o.id;
      assert book'[k].id == book'[|book|].id;
    }
  }

  predicate Names(t: Trade, id: OrderID) {
    t.buyOrderId == id || t.sellOrderId == id
  }

  /** The quantity a list of trades attributes to an order. */
  function Ledger(trades: seq<Trade>, id: OrderID): nat {
    if trades == [] then 0 else (if Names(trades[0], id) then trades[0].quantity else 0) + Ledger(trades[1..], id)
  }

  /** What a list of trades does to the order with a given identifier. */
  predicate Accounts(before: Option<Order>, after: Option<Order>, sum: nat) {
    match before
    case None => sum == 0 && after.None?
    case Some(o) => sum <= o.Left() && after == if sum == o.Left() then None else Some(o.Fill(sum))
  }

  lemma {:induction false} AccountsCompose(a: Option<Order>, b: Option<Order>, c: Option<Order>, s: nat, t: nat)
    requires Accounts(a, b, s) && Accounts(b, c, t)
    ensures Accounts(a, c, s + t)
  {
  }

  lemma {:induction false} AfterTradeIds(book: Book, k: nat, qty: int, id: OrderID)
    requires UniqueIds(book) && k < |book| && 0 <= qty <= book[k].Left()
    ensures var next := AfterTrade(book, k, qty);
      && UniqueIds(next)
      && (!HasId(book, id) ==> !HasId(next, id))
      && (id != book[k].id ==> Get(next, id) == Get(book, id))
      && (id == book[k].id ==>
            && Get(book, id) == Some(book[k])
            && Get(next, id) == if qty == book[k].Left() then None else Some(book[k].Fill(qty)))
  {
    hide HasId, IndexOf, Get, UniqueIds, Drop;
    GetIs(book, id);
    GetAround(book, k, book[k].Fill(qty), id);
    GetIs(AfterTrade(book, k, qty), id);
    IdAtIsIn(book, k);
  }

  lemma {:induction false} IdAtIsIn(book: Book, k: nat)
    requires k < |book|
    ensures HasId(book, book[k].id)
  {
  }

  lemma {:induction false} AccountsStep(book: Book, taker: Order, id: OrderID)
    requires Open(book) && CanTrade(book, taker) && UniqueIds(book)
    ensures var k, qty := Maker(book, taker), TradedQty(book, taker);
      && UniqueIds(AfterTrade(book, k, qty))
      && Accounts(Get(book, id), Get(AfterTrade(book, k, qty), id), if id == book[k].id then qty else 0)
  {
    hide First, HasId, IndexOf, Get, UniqueIds, AfterTrade;
    var k, qty := Maker(book, taker), TradedQty(book, taker);
    AfterTradeIds(book, k, qty, id);
    GetIs(book, id);
    if id != book[k].id && Get(book, id).Some? {
      var o := Get(book, id).value;
      assert o.IsOpen() && o.Fill(0) == o;
    }
  }

  lemma {:induction false} TakerLedger(book: Book, taker: Order)
    requires Open(book) && taker.filled <= taker.quantity && UniqueIds(book) && !HasId(book, taker.id)
    ensures Ledger(Sweep(book, taker).trades, taker.id) == Sweep(book, taker).taker.filled - taker.filled
    ensures !HasId(Sweep(book, taker).book, taker.id)
    decreases taker.Left()
  {
    if CanTrade(book, taker) {
      var k, qty := Maker(book, taker), TradedQty(book, taker);
      AfterTradeOpen(book, k, qty);
      var next, taker' := AfterTrade(book, k, qty), taker.Fill(qty);
      GetAround(book, k, book[k].Fill(qty), taker.id);
      assert !HasId(next, taker'.id);
      TakerLedger(next, taker');
      assert Sweep(book, taker).trades[1..] == Sweep(next, taker').trades;
    }
  }

  /** For every other identifier: its ledger is exactly its new fill, and it stays in the book until that
      completes it. */
  lemma {:induction false} SweepLedger(book: Book, taker: Order, id: OrderID)
    requires Open(book) && taker.filled <= taker.quantity && UniqueIds(book) && id != taker.id
    ensures Accounts(Get(book, id), Get(Sweep(book, taker).book, id), Ledger(Sweep(book, taker).trades, id))
    decreases taker.Left()
  {
    hide First, Get, IndexOf, AfterTrade;
    if CanTrade(book, taker) {
      SweepUnfolds(book, taker);
      var k, qty := Maker(book, taker), TradedQty(book, taker);
      var next, taker' := AfterTrade(book, k, qty), taker.Fill(qty);
      AccountsStep(book, taker, id);
      SweepLedger(next, taker', id);
      var rest := Sweep(next, taker');
      AccountsCompose(Get(book, id), Get(next, id), Get(rest.book, id),
                      if id == book[k].id then qty else 0, Ledger(rest.trades, id));
    } else if Get(book, id).Some? {
      GetIs(book, id);
      var o := Get(book, id).value;
      assert o.IsOpen() && o.Fill(0) == o;
    }
  }

  /** Every trade carries the symbol of the book. */
  lemma {:induction false} SweepSymbol(book: Book, taker: Order)
    requires Open(book) && taker.filled <= taker.quantity
    requires forall o :: o in book ==> o.symbol == taker.symbol
    ensures forall i :: 0 <= i < |Sweep(book, taker).trades| ==> Sweep(book, taker).trades[i].symbol == taker.symbol
    decreases taker.Left()
  {
    hide First;
    if CanTrade(book, taker) {
      SweepUnfolds(book, taker);
      var k, qty := Maker(book, taker), TradedQty(book, taker);
      SweepSymbol(AfterTrade(book, k, qty), taker.Fill(qty));
    }
  }

  // ---------------------------------------------------------------- symmetry of the two sides

  function MirrorOrder(o: Order): Order {
    o.(side := o.side.Opposite(), price := -o.price)
  }

  function Mirror(book: Book): Book {
    seq(|book|, i requires 0 <= i < |book| => MirrorOrder(book[i]))
  }

  lemma {:induction false} MirrorFirst(book: Book, side: Side, up: bool)
    ensures First(Mirror(book), side.Opposite(), !up) == First(book, side, up)
  {
    var k, m := First(book, side, up), Mirror(book);
    if k == -1 {
      assert forall j :: 0 <= j < |m| ==> m[j].side == book[j].side.Opposite();
    } else {
      assert IsFirst(m, side.Opposite(), !up, k) by {
        forall j | 0 <= j < |m| && m[j].side == side.Opposite()
          ensures !Before(!up, m[j].price, m[k].price) && (j < k ==> m[j].price != m[k].price)
        {
          assert book[j].side == side;
        }
      }
      FirstIsUnique(m, side.Opposite(), !up, k);
    }
  }

  predicate MirrorTrades(a: seq<Trade>, b: seq<Trade>) {
    && |a| == |b|
    && forall i :: 0 <= i < |a| ==>
         && a[i].price == -b[i].price && a[i].quantity == b[i].quantity
         && a[i].buyOrderId == b[i].sellOrderId && a[i].sellOrderId == b[i].buyOrderId
         && a[i].buyUserId == b[i].sellUserId && a[i].sellUserId == b[i].buyUserId
  }

  lemma {:induction false} MirrorAfterTrade(book: Book, k: nat, qty: int)
    requires k < |book| && 0 <= qty <= book[k].Left()
    ensures AfterTrade(Mirror(book), k, qty) == Mirror(AfterTrade(book, k, qty))
  {
    var m := Mirror(book);
    assert m[..k] + m[k + 1..] == Mirror(book[..k] + book[k + 1..]);
  }

  lemma {:induction false} MirrorStep(book: Book, taker: Order)
    requires Open(book) && taker.filled <= taker.quantity
    ensures Maker(Mirror(book), MirrorOrder(taker)) == Maker(book, taker)
    ensures Open(Mirror(book)) && CanTrade(Mirror(book), MirrorOrder(taker)) == CanTrade(book, taker)
    ensures CanTrade(book, taker) ==> TradedQty(Mirror(book), MirrorOrder(taker)) == TradedQty(book, taker)
  {
    var side := taker.side.Opposite();
    MirrorFirst(book, side, taker.side.Buy?);
    assert MirrorOrder(taker).side.Opposite() == side.Opposite();
  }

  predicate MirrorImage(m: Swept, r: Swept) {
    m.book == Mirror(r.book) && m.taker == MirrorOrder(r.taker) && MirrorTrades(m.trades, r.trades)
  }

  lemma {:induction false} MirrorCons(t': Trade, m: seq<Trade>, t: Trade, r: seq<Trade>)
    requires MirrorTrades([t'], [t]) && MirrorTrades(m, r)
    ensures MirrorTrades([t'] + m, [t] + r)
  {
    assert [t'][0] == t' && [t][0] == t;
  }

  lemma {:induction false} SweepMirrors(book: Book, taker: Order)
    requires Open(book) && taker.filled <= taker.quantity
    ensures Open(Mirror(book)) && MirrorImage(Sweep(Mirror(book), MirrorOrder(taker)), Sweep(book, taker))
    decreases taker.Left()
  {
    hide First, AfterTrade;
    MirrorStep(book, taker);
    if CanTrade(book, taker) {
      var m, mtaker := Mirror(book), MirrorOrder(taker);
      SweepUnfolds(book, taker);
      SweepUnfolds(m, mtaker);
      var k, qty := Maker(book, taker), TradedQty(book, taker);
      var next, taker' := AfterTrade(book, k, qty), taker.Fill(qty);
      MirrorAfterTrade(book, k, qty);
      assert mtaker.Fill(qty) == MirrorOrder(taker');
      SweepMirrors(next, taker');
      var t, t' := TradeBetween(taker, book[k], qty), TradeBetween(mtaker, m[k], qty);
      MirrorCons(t', Sweep(Mirror(next), MirrorOrder(taker')).trades, t, Sweep(next, taker').trades);
    }
  }

  /** A sell sweep is the buy sweep of the price-reversed book, trade for trade: same orders, users and
      quantities with the sides exchanged, and the same symbol. */
  lemma {:induction false} SweepIsSymmetric(book: Book, taker: Order)
    requires Open(book) && taker.filled <= taker.quantity
    ensures Open(Mirror(book)) && MirrorImage(Sweep(Mirror(book), MirrorOrder(taker)), Sweep(book, taker))
    ensures (forall o :: o in book ==> o.symbol == taker.symbol) ==>
      forall i :: 0 <= i < |Sweep(book, taker).trades| ==>
        Sweep(Mirror(book), MirrorOrder(taker)).trades[i].symbol == Sweep(book, taker).trades[i].symbol
  {
    hide Sweep;
    SweepMirrors(book, taker);
    if forall o :: o in book ==> o.symbol == taker.symbol {
      SweepSymbol(book, taker);
      SweepSymbol(Mirror(book), MirrorOrder(taker));
    }
  }
}
