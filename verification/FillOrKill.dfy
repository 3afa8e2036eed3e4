/** The liquidity scan that decides whether a fill-or-kill order is matched or killed.  The program walks
    the opposite price map from its lowest price upward on both sides, subtracts in 64-bit unsigned
    arithmetic, and stops only when the subtraction lands on zero. */
module FillOrKill {
  import opened Types
  import opened NaiveBook
  import opened SweepLaws

  /** The leading orders of a queue the taker would trade with. */
  function Reach(queue: Book, o: Order): Book {
    if queue == [] || !Crosses(o.side, FillOrKill, o.price, queue[0].price) then []
    else [queue[0]] + Reach(queue[1..], o)
  }

  function ScanOrder(book: Book, o: Order): Book {
    Queue(book, o.side.Opposite(), true)
  }

  /** Some leading run of the queue adds up to the quantity, modulo the machine word. */
  predicate SumsTo(queue: Book, quantity: Quantity) {
    exists n :: 1 <= n <= |queue| && Total(queue[..n]) % WRAP == quantity
  }

  predicate ScanAccepts(book: Book, o: Order) {
    SumsTo(Reach(ScanOrder(book, o), o), o.quantity)
  }

  /** What the scan is meant to decide: whether matching would complete the order. */
  predicate WouldComplete(book: Book, o: Order)
    requires Open(book) && o.filled <= o.quantity
  {
    !Sweep(book, o).taker.IsOpen()
  }

  lemma {:induction false} CompletesIffEnough(book: Book, o: Order)
    requires Open(book) && o.filled <= o.quantity
    ensures WouldComplete(book, o) <==> Eligible(book, o) >= o.Left()
    ensures WouldComplete(book, o) ==> SumQuantity(Sweep(book, o).trades) == o.Left()
  {
    hide Sweep, Filter, SumQuantity;
    SweepFillsExactly(book, o);
    SweepFillIsVolume(book, o);
  }

  lemma {:induction false} EligibleAfterFirst(book: Book, o: Order, up: bool)
    requires First(book, o.side.Opposite(), up) >= 0
    ensures var k := First(book, o.side.Opposite(), up);
      Eligible(book, o) == Eligible(Drop(book, k), o) + if WouldTrade(o, book[k].price) then book[k].Left() else 0
  {
    hide First, Filter, Total;
    var k := First(book, o.side.Opposite(), up);
    var f := IsEligible(o.side, o.kind, o.price);
    var pre, post := Filter(book[..k], f), Filter(book[k + 1..], f);
    FilterAround(book, k, book[k], f);
    TotalConcat(pre, post);
    TotalConcat(pre + (if f(book[k]) then [book[k]] else []), post);
    TotalConcat(pre, if f(book[k]) then [book[k]] else []);
    TotalOfOne(book[k]);
  }

  lemma {:induction false} TotalOfOne(o: Order)
    ensures Total([o]) == o.Left() && Total([]) == 0
  {
    assert [o][1..] == [];
  }

  lemma {:induction false} TotalOfCons(o: Order, rest: Book)
    ensures Total([o] + rest) == o.Left() + Total(rest)
  {
    assert ([o] + rest)[1..] == rest;
  }

  lemma {:induction false} DropOpen(book: Book, k: nat)
    requires k < |book| && Open(book)
    ensures Open(Drop(book, k)) && book[k].IsOpen() && |Drop(book, k)| < |book|
  {
  }

  lemma {:induction false} EligibleAtLeastZero(book: Book, o: Order)
    requires Open(book)
    ensures Eligible(book, o) >= 0
  {
    hide Open, Filter, Total;
    EligibleNonNegative(book, IsEligible(o.side, o.kind, o.price));
  }

  /** The scan meets the lowest order first, then what it would meet without it. */
  lemma {:induction false} ReachStep(book: Book, o: Order)
    requires o.kind.FillOrKill? && Reach(ScanOrder(book, o), o) != []
    ensures var k := First(book, o.side.Opposite(), true);
      && k >= 0 && WouldTrade(o, book[k].price)
      && Reach(ScanOrder(book, o), o) == [book[k]] + Reach(ScanOrder(Drop(book, k), o), o)
  {
    hide First;
    var k, queue := First(book, o.side.Opposite(), true), ScanOrder(book, o);
    assert queue[1..] == ScanOrder(Drop(book, k), o);
  }

  /** No leading run the scan can see exceeds the eligible quantity, and each is positive. */
  lemma {:induction false} ReachIsEligible(book: Book, o: Order, n: nat)
    requires Open(book) && o.kind.FillOrKill? && n <= |Reach(ScanOrder(book, o), o)|
    ensures n <= Total(Reach(ScanOrder(book, o), o)[..n]) <= Eligible(book, o)
    decreases |book|
  {
    hide First, Filter, Total, Reach, ScanOrder, Queue, Open, Drop, Eligible, WouldTrade, Crosses;
    EligibleAtLeastZero(book, o);
    var reach := Reach(ScanOrder(book, o), o);
    if n == 0 {
      assert reach[..n] == [];
      TotalOfOne(o);
    } else {
      ReachStep(book, o);
      var k := First(book, o.side.Opposite(), true);
      var rest := Drop(book, k);
      var reach' := Reach(ScanOrder(rest, o), o);
      assert reach[..n] == [book[k]] + reach'[..n - 1];
      DropOpen(book, k);
      TotalOfCons(book[k], reach'[..n - 1]);
      EligibleAfterFirst(book, o, true);
      ReachIsEligible(rest, o, n - 1);
    }
  }

  /** Acceptance is sound however large the book and wherever the subtraction wrapped: an accepted order
      is completed by the sweep. */
  lemma {:induction false} AcceptedIsCompleted(book: Book, o: Order)
    requires Open(book) && o.kind.FillOrKill? && o.filled == 0 && ScanAccepts(book, o)
    ensures WouldComplete(book, o) && SumQuantity(Sweep(book, o).trades) == o.quantity
  {
    hide First, Sweep, Reach;
    var reach := Reach(ScanOrder(book, o), o);
    var n :| 1 <= n <= |reach| && Total(reach[..n]) % WRAP == o.quantity;
    ReachIsEligible(book, o, n);
    assert Total(reach[..n]) >= o.quantity;
    CompletesIffEnough(book, o);
  }

  // ---------------------------------------------------------------- when the scan decides as intended

  /** The orders within reach of the taker, in the scan's order. */
  function WithinReach(book: Book, o: Order): Book {
    Filter(ScanOrder(book, o), IsEligible(o.side, o.kind, o.price))
  }

  predicate BidsAllEligible(book: Book, o: Order) {
    forall b :: b in book && b.side.Buy? ==> b.price >= o.price
  }

  lemma {:induction false} ReachWhenSorted(queue: Book, o: Order)
    requires o.kind.FillOrKill? && o.side.Buy? && SortedBy(queue, true)
    requires forall q :: q in queue ==> q.side == o.side.Opposite()
    ensures Reach(queue, o) == Filter(queue, IsEligible(o.side, o.kind, o.price))
  {
    if queue != [] {
      assert queue[0] in queue;
      if Crosses(o.side, FillOrKill, o.price, queue[0].price) {
        ReachWhenSorted(queue[1..], o);
      } else {
        FilterNone(queue, IsEligible(o.side, o.kind, o.price));
      }
    }
  }

  lemma {:induction false} ReachWhenAllCross(queue: Book, o: Order)
    requires o.kind.FillOrKill?
    requires forall q :: q in queue ==> q.side == o.side.Opposite() && WouldTrade(o, q.price)
    ensures Reach(queue, o) == queue && Filter(queue, IsEligible(o.side, o.kind, o.price)) == queue
  {
    FilterAll(queue, IsEligible(o.side, o.kind, o.price));
    if queue != [] {
      assert queue[0] in queue;
      ReachWhenAllCross(queue[1..], o);
    }
  }

  /** A buyer's scan sees everything within reach; a seller's sees all of it or, as soon as one bid lies
      below the limit, nothing. */
  lemma {:induction false} WhatTheScanSees(book: Book, o: Order)
    requires o.kind.FillOrKill?
    ensures Reach(ScanOrder(book, o), o) ==
      if o.side.Sell? && !BidsAllEligible(book, o) then [] else WithinReach(book, o)
  {
    var queue := ScanOrder(book, o);
    QueueIsSorted(book, o.side.Opposite(), true);
    if o.side.Buy? {
      ReachWhenSorted(queue, o);
    } else if BidsAllEligible(book, o) {
      ReachWhenAllCross(queue, o);
    } else {
      var k := First(book, Buy, true);
      assert queue[0] == book[k];
      var b :| b in book && b.side.Buy? && b.price < o.price;
      assert book[k].price <= b.price;
    }
  }

  /** The scan decides as intended exactly when there is too little to fill the order anyway, or some
      leading run of the reachable orders hits the quantity on the nose (modulo 2^64) and, for a seller,
      no bid lies below its limit. */
  lemma {:induction false} ScanIsRightIff(book: Book, o: Order)
    requires Open(book) && o.kind.FillOrKill? && o.filled == 0
    ensures (ScanAccepts(book, o) <==> WouldComplete(book, o)) <==>
      || Eligible(book, o) < o.quantity
      || ((o.side.Sell? ==> BidsAllEligible(book, o)) && SumsTo(WithinReach(book, o), o.quantity))
  {
    hide First, Sweep, Reach, Total, Filter;
    CompletesIffEnough(book, o);
    WhatTheScanSees(book, o);
    if ScanAccepts(book, o) {
      AcceptedIsCompleted(book, o);
    }
  }

  /** Two orders the scan kills although the book can fill them: a buyer of 50 facing one ask for 100,
      and a seller of 10 facing a bid for 10 at its limit while another bid rests below. */
  lemma {:induction false} ScanKillsFillableOrders(symbol: Symbol)
    ensures var book := [Order(1, symbol, 1, Sell, Limit, 150.0, 100, 0)];
      var o := Order(2, symbol, 2, Buy, FillOrKill, 150.0, 50, 0);
      !ScanAccepts(book, o) && WouldComplete(book, o)
    ensures var book := [Order(1, symbol, 1, Buy, Limit, 100.0, 10, 0), Order(2, symbol, 1, Buy, Limit, 150.0, 10, 0)];
      var o := Order(3, symbol, 2, Sell, FillOrKill, 150.0, 10, 0);
      !ScanAccepts(book, o) && WouldComplete(book, o)
  {
    hide Sweep;
    var ask := Order(1, symbol, 1, Sell, Limit, 150.0, 100, 0);
    var buy := Order(2, symbol, 2, Buy, FillOrKill, 150.0, 50, 0);
    FirstIsUnique([ask], Sell, true, 0);
    assert Drop([ask], 0) == [];
    assert Queue([], Sell, true) == [];
    assert ScanOrder([ask], buy) == [ask] + Queue(Drop([ask], 0), Sell, true);
    assert [ask][1..] == [];
    assert Reach([ask], buy) == [ask];
    assert [ask][..1] == [ask];
    TotalOfOne(ask);
    assert Filter([ask], IsEligible(buy.side, buy.kind, buy.price)) == [ask];
    CompletesIffEnough([ask], buy);

    var low, high := Order(1, symbol, 1, Buy, Limit, 100.0, 10, 0), Order(2, symbol, 1, Buy, Limit, 150.0, 10, 0);
    var bids, sell := [low, high], Order(3, symbol, 2, Sell, FillOrKill, 150.0, 10, 0);
    WhatTheScanSees(bids, sell);
    assert low in bids;
    assert bids[1..] == [high] && [high][1..] == [];
    var f := IsEligible(sell.side, sell.kind, sell.price);
    assert Filter([high], f) == [high];
    assert Filter(bids, f) == [high];
    TotalOfOne(high);
    CompletesIffEnough(bids, sell);
  }

  // ---------------------------------------------------------------- a scan that decides as intended

  /** Walk the queue from its best price and stop as soon as enough has been seen. */
  predicate Covers(queue: Book, o: Order, needed: int) {
    && queue != []
    && WouldTrade(o, queue[0].price)
    && (needed <= queue[0].Left() || Covers(queue[1..], o, needed - queue[0].Left()))
  }

  lemma {:induction false} CoversIffEnough(book: Book, o: Order, needed: int)
    requires Open(book) && o.IsOpen() && needed > 0
    ensures Covers(Facing(book, o), o, needed) <==> needed <= Eligible(book, o)
    decreases |book|
  {
    hide First, Filter, Total;
    var k := Maker(book, o);
    if !CanTrade(book, o) {
      NothingEligible(book, o);
      TotalOfOne(o);
    } else {
      var rest := Drop(book, k);
      EligibleAfterFirst(book, o, o.side.Buy?);
      EligibleNonNegative(rest, IsEligible(o.side, o.kind, o.price));
      assert Facing(book, o)[1..] == Facing(rest, o);
      if needed > book[k].Left() {
        CoversIffEnough(rest, o, needed - book[k].Left());
      }
    }
  }

  /** Scanning best price first and accepting at "at least" is right on every book. */
  lemma {:induction false} RepairedScanIsRight(book: Book, o: Order)
    requires Open(book) && o.IsOpen()
    ensures Covers(Facing(book, o), o, o.Left()) <==> WouldComplete(book, o)
  {
    hide Covers, First, Sweep, Filter;
    CoversIffEnough(book, o, o.Left());
    CompletesIffEnough(book, o);
  }
}
