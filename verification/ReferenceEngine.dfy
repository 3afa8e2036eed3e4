/** The reference engine: one naive book per symbol, a trade history, counters, and two numbers in place
    of the slot pool (free slots, and slots taken out of the pool and never returned). */
module ReferenceEngine {
  import opened Types
  import opened NaiveBook
  import opened SweepLaws
  import opened FillOrKill

  predicate IsValidOrder(o: Order) {
    && o.quantity != 0
    && o.symbol != []
    && !(o.kind.Limit? && o.price <= 0.0)
    && !(o.price < 0.0)
  }

  /** What becomes of a valid order that was given a slot. */
  datatype Fate = Killed | Completed | RemainderCancelled | RemainderDropped | Rested {
    /** The slot is handed back at the end of the call. */
    predicate ReturnsSlot() {
      Completed? || RemainderCancelled?
    }

    /** The slot is neither handed back nor in a book. */
    predicate LosesSlot() {
      Killed? || RemainderDropped?
    }
  }

  datatype Handled = Handled(trades: seq<Trade>, book: Book, fate: Fate, removed: nat)

  function Handle(book: Book, o: Order): (h: Handled)
    requires Open(book) && o.filled == 0 && o.quantity > 0
    ensures Open(h.book)
  {
    if o.kind.FillOrKill? && !ScanAccepts(book, o) then
      Handled([], book, Killed, 0)
    else
      var r := Sweep(book, o);
      var removed := |book| - |r.book|;
      if !r.taker.IsOpen() then Handled(r.trades, r.book, Completed, removed)
      else match o.kind
        case ImmediateOrCancel => Handled(r.trades, r.book, RemainderCancelled, removed)
        case Market => Handled(r.trades, r.book, RemainderDropped, removed)
        case _ => Handled(r.trades, r.book + [r.taker], Rested, removed)
  }

  datatype Venue = Venue(books: map<Symbol, Book>, history: seq<Trade>, free: nat, unreturned: nat,
                           totalOrders: u64, totalTrades: u64, totalVolume: u64)

  function BookOf(m: Venue, symbol: Symbol): Book {
    if symbol in m.books then m.books[symbol] else []
  }

  predicate AllOpen(m: Venue) {
    forall s :: s in m.books ==> Open(m.books[s])
  }

  function NewOrder(m: Venue, o: Order): (r: (Venue, seq<Trade>))
    requires AllOpen(m) && o.filled == 0
    ensures AllOpen(r.0)
  {
    if m.free == 0 || !IsValidOrder(o) then
      (m, [])
    else
      var h := Handle(BookOf(m, o.symbol), o);
      (Venue(m.books[o.symbol := h.book],
              m.history + h.trades,
              m.free - 1 + h.removed + (if h.fate.ReturnsSlot() then 1 else 0),
              m.unreturned + (if h.fate.LosesSlot() then 1 else 0),
              if h.fate.Rested? then Add64(m.totalOrders, 1) else m.totalOrders,
              (m.totalTrades + |h.trades|) % WRAP,
              (m.totalVolume + SumQuantity(h.trades)) % WRAP),
       h.trades)
  }

  function CancelOrder(m: Venue, id: OrderID, symbol: Symbol): (r: (Venue, Option<Order>))
    requires AllOpen(m)
    ensures AllOpen(r.0)
  {
    var book := BookOf(m, symbol);
    var k := IndexOf(book, id);
    if k == -1 then (m.(books := m.books[symbol := book]), None)
    else (m.(books := m.books[symbol := Drop(book, k)], free := m.free + 1), Some(book[k]))
  }

  /** The order gets a slot and passes validation. */
  predicate Admitted(m: Venue, o: Order) {
    m.free > 0 && IsValidOrder(o)
  }

  // ---------------------------------------------------------------- identifiers

  /** What is left of the order comes to rest under an identifier that still rests in its book. */
  predicate RestsTwice(book: Book, o: Order)
    requires Open(book) && o.filled == 0 && o.quantity > 0
  {
    Handle(book, o).fate.Rested? && HasId(Sweep(book, o).book, o.id)
  }

  predicate Clashes(m: Venue, o: Order)
    requires AllOpen(m) && o.filled == 0
  {
    Admitted(m, o) && RestsTwice(BookOf(m, o.symbol), o)
  }

  /** No book holds an identifier twice. */
  ghost predicate AllUnique(m: Venue) {
    forall s :: UniqueIds(BookOf(m, s))
  }

  /** Identifiers stay unique in every book if and only if the order does not clash. */
  lemma {:induction false} UniqueIffNoClash(m: Venue, o: Order)
    requires AllOpen(m) && o.filled == 0 && AllUnique(m)
    ensures AllUnique(NewOrder(m, o).0) <==> !Clashes(m, o)
  {
    hide Sweep, ScanAccepts, UniqueIds, HasId;
    var m' := NewOrder(m, o).0;
    if Admitted(m, o) {
      var book := BookOf(m, o.symbol);
      var r := Sweep(book, o);
      SweepKeepsIdsUnique(book, o);
      UniqueAppended(r.book, r.taker);
      assert forall s :: s != o.symbol ==> BookOf(m', s) == BookOf(m, s);
      assert BookOf(m', o.symbol) == Handle(book, o).book;
    }
  }

  /** An order whose identifier does not rest on arrival does not clash. */
  lemma {:induction false} FreshNeverClashes(m: Venue, o: Order)
    requires AllOpen(m) && o.filled == 0 && !HasId(BookOf(m, o.symbol), o.id)
    ensures !Clashes(m, o)
  {
    hide Sweep, ScanAccepts;
    if Clashes(m, o) {
      var book := BookOf(m, o.symbol);
      var r := Sweep(book, o);
      var k :| 0 <= k < |r.book| && r.book[k].id == o.id;
      SweepKeepsOrders(book, o, r.book[k]);
    }
  }

  // ---------------------------------------------------------------- one call

  /** A fill-or-kill order trades its whole quantity or nothing, and never comes to rest; killed, it
      leaves every book as it was. */
  lemma {:induction false} FillOrKillIsAllOrNothing(m: Venue, o: Order)
    requires AllOpen(m) && o.filled == 0 && o.kind.FillOrKill?
    ensures var (m', trades) := NewOrder(m, o);
      && (trades == [] || SumQuantity(trades) == o.quantity)
      && (trades == [] ==> forall s :: BookOf(m', s) == BookOf(m, s))
      && m'.totalOrders == m.totalOrders
      && forall s :: |BookOf(m', s)| <= |BookOf(m, s)|
  {
    hide Sweep, ScanAccepts;
    if m.free > 0 && IsValidOrder(o) {
      var book := BookOf(m, o.symbol);
      if ScanAccepts(book, o) {
        AcceptedIsCompleted(book, o);
        assert SumQuantity([]) == 0;
      }
    }
  }

  /** Price-time priority of a call: its trades run through the opposite side in (price, arrival) order,
      at the makers' prices and within the limit, taking each maker whole except where the order itself
      is completed, and the opposite side keeps exactly the rest of that order. */
  lemma {:induction false} NewOrderTakesInOrder(m: Venue, o: Order)
    requires AllOpen(m) && o.filled == 0 && NewOrder(m, o).1 != []
    ensures var (m', trades) := NewOrder(m, o);
      var book, book' := BookOf(m, o.symbol), BookOf(m', o.symbol);
      && SumQuantity(trades) <= o.quantity
      && TakesInOrder(Swept(trades, o.(filled := SumQuantity(trades)), book'), o, Facing(book, o))
      && Facing(book', o) == Remaining(trades, Facing(book, o))
  {
    hide Sweep, ScanAccepts, TakesInOrder, Remaining, Queue, SumQuantity;
    var book := BookOf(m, o.symbol);
    var r := Sweep(book, o);
    SweepTakesInOrder(book, o);
    SweepFillIsVolume(book, o);
    OwnSideDoesNotFace(r.book, r.taker, o);
    TakesInOrderIgnoresBook(r, o, Facing(book, o), BookOf(NewOrder(m, o).0, o.symbol));
  }

  lemma {:induction false} TakesInOrderIgnoresBook(r: Swept, taker: Order, queue: Book, book: Book)
    requires TakesInOrder(r, taker, queue)
    ensures TakesInOrder(r.(book := book), taker, queue)
  {
  }

  /** An order of the taker's own side is not in the taker's way. */
  lemma {:induction false} OwnSideDoesNotFace(book: Book, x: Order, taker: Order)
    requires x.side == taker.side
    ensures Facing(book + [x], taker) == Facing(book, taker)
    decreases |book|
  {
    hide First;
    var side, up := taker.side.Opposite(), taker.side.Buy?;
    var k := First(book, side, up);
    if k == -1 {
      assert First(book + [x], side, up) == -1;
    } else {
      FirstIsUnique(book + [x], side, up, k);
      assert Drop(book + [x], k) == Drop(book, k) + [x];
      OwnSideDoesNotFace(Drop(book, k), x, taker);
    }
  }

  /** What makes a call lose its slot, as its caller can tell beforehand: a fill-or-kill order that the scan
      kills, or a market order that wants more than rests on the other side. */
  predicate LosesItsSlot(m: Venue, o: Order) {
    var book := BookOf(m, o.symbol);
    && Admitted(m, o)
    && ((o.kind.FillOrKill? && !ScanAccepts(book, o)) || (o.kind.Market? && Eligible(book, o) < o.quantity))
  }

  /** A call loses one slot for good in exactly those cases, and never any other. */
  lemma {:induction false} SlotLostIff(m: Venue, o: Order)
    requires AllOpen(m) && o.filled == 0
    ensures NewOrder(m, o).0.unreturned == m.unreturned + if LosesItsSlot(m, o) then 1 else 0
  {
    hide Sweep, ScanAccepts, Eligible, SumQuantity;
    var book := BookOf(m, o.symbol);
    SweepFillsExactly(book, o);
    SweepFillIsVolume(book, o);
    if Admitted(m, o) && o.kind.FillOrKill? && ScanAccepts(book, o) {
      AcceptedIsCompleted(book, o);
    }
  }

  /** Whether an order that traded this much comes to rest. */
  predicate ComesToRest(m: Venue, o: Order, traded: nat) {
    Admitted(m, o) && (o.kind.Limit? || o.kind.GoodForDay?) && traded < o.quantity
  }

  /** Quantity is conserved by every call: what the caller's order traded is what the opposite side of
      its own book lost; its own side gains the remainder, last in line, exactly when a limit or
      good-for-day order was not completed; other books keep still. */
  lemma {:induction false} NewOrderConserves(m: Venue, o: Order)
    requires AllOpen(m) && o.filled == 0
    ensures var (m', trades) := NewOrder(m, o);
      var traded := SumQuantity(trades);
      var book, book', other := BookOf(m, o.symbol), BookOf(m', o.symbol), o.side.Opposite();
      && m'.history == m.history + trades
      && traded == Total(OnSide(book, other)) - Total(OnSide(book', other)) <= o.quantity
      && OnSide(book', o.side)
         == OnSide(book, o.side) + (if ComesToRest(m, o, traded) then [o.(filled := traded)] else [])
      && forall s :: s != o.symbol ==> BookOf(m', s) == BookOf(m, s)
  {
    hide Sweep, Filter, Total, ScanAccepts;
    var (m', trades) := NewOrder(m, o);
    assert SumQuantity([]) == 0;
    assert m.history + [] == m.history;
    if Admitted(m, o) {
      var book, other := BookOf(m, o.symbol), o.side.Opposite();
      var r := Sweep(book, o);
      SweepConserves(book, o);
      SweepFillIsVolume(book, o);
      SideOfAppended(r.book, r.taker, o.side);
      SideOfAppended(r.book, r.taker, other);
      if o.kind.FillOrKill? && ScanAccepts(book, o) {
        AcceptedIsCompleted(book, o);
      }
    }
  }

  /** How much a call trades: for an admitted order the lesser of its quantity and what rests within its
      reach, except that a killed fill-or-kill order trades nothing; for any other order nothing. */
  lemma {:induction false} NewOrderTradesExactly(m: Venue, o: Order)
    requires AllOpen(m) && o.filled == 0
    ensures var book := BookOf(m, o.symbol);
      var killed := o.kind.FillOrKill? && !ScanAccepts(book, o);
      SumQuantity(NewOrder(m, o).1) == if Admitted(m, o) && !killed then Min(o.quantity, Eligible(book, o)) else 0
  {
    hide Sweep, ScanAccepts, Eligible;
    assert SumQuantity([]) == 0;
    SweepFillsExactly(BookOf(m, o.symbol), o);
  }

  lemma {:induction false} SumIsPositive(trades: seq<Trade>)
    requires trades != [] && trades[0].quantity > 0
    ensures SumQuantity(trades) > 0
  {
  }

  /** Whether a call trades at all, as its caller can tell beforehand: the order is admitted, is not killed,
      and something rests within its reach. */
  lemma {:induction false} TradesIff(m: Venue, o: Order)
    requires AllOpen(m) && o.filled == 0
    ensures var book := BookOf(m, o.symbol);
      NewOrder(m, o).1 != [] <==>
        Admitted(m, o) && !(o.kind.FillOrKill? && !ScanAccepts(book, o)) && Eligible(book, o) > 0
  {
    hide NewOrder, ScanAccepts, Eligible, SumQuantity, Queue, Remaining, WouldTrade;
    NewOrderTradesExactly(m, o);
    assert SumQuantity([]) == 0 by {
      NothingSums();
    }
    if NewOrder(m, o).1 != [] {
      NewOrderTakesInOrder(m, o);
      SumIsPositive(NewOrder(m, o).1);
    }
  }

  lemma {:induction false} NothingSums()
    ensures SumQuantity([]) == 0
  {
  }

  lemma {:induction false} SideOfAppended(book: Book, o: Order, side: Side)
    ensures o.side == side ==> OnSide(book + [o], side) == OnSide(book, side) + [o]
    ensures o.side != side ==> OnSide(book + [o], side) == OnSide(book, side)
  {
    FilterConcat(book, [o], IsOnSide(side));
    assert [o][1..] == [];
  }
}
