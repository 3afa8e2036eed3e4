/** Counting over whole runs: slots, trades against orders, and the engine's counters. */
module ReferenceCounts {
  import opened Types
  import opened NaiveBook
  import opened SweepLaws
  import opened FillOrKill
  import opened ReferenceEngine
  import opened ReferenceRuns

  /** All orders resting anywhere. */
  ghost function Resting(books: map<Symbol, Book>): nat
    decreases |books|
  {
    if books == map[] then 0 else
    var s :| s in books;
    assert (books - {s}).Keys == books.Keys - {s};
    |books[s]| + Resting(books - {s})
  }

  lemma {:induction false} RestingSplit(books: map<Symbol, Book>, s: Symbol)
    requires s in books
    ensures Resting(books) == |books[s]| + Resting(books - {s})
    decreases |books|
  {
    var t :| t in books && Resting(books) == |books[t]| + Resting(books - {t});
    if t != s {
      assert (books - {t}).Keys == books.Keys - {t} && (books - {s}).Keys == books.Keys - {s};
      RestingSplit(books - {t}, s);
      RestingSplit(books - {s}, t);
      assert books - {t} - {s} == books - {s} - {t};
    }
  }

  lemma {:induction false} RestingUpdate(m: Venue, s: Symbol, book: Book)
    ensures Resting(m.books[s := book]) == Resting(m.books) - |BookOf(m, s)| + |book|
  {
    var books' := m.books[s := book];
    RestingSplit(books', s);
    if s in m.books {
      RestingSplit(m.books, s);
      assert books' - {s} == m.books - {s};
    } else {
      assert books' - {s} == m.books;
    }
  }

  function NewOrders(ops: seq<Op>): nat {
    if ops == [] then 0 else NewOrders(ops[..|ops| - 1]) + if ops[|ops| - 1].New? then 1 else 0
  }

  /** Every slot is free, in a book or lost; trades and resting orders are paid for by orders; the
      counters are the history's size and volume in machine arithmetic. */
  ghost predicate Counted(m: Venue, capacity: nat, orders: nat) {
    && m.free + Resting(m.books) + m.unreturned == capacity
    && |m.history| + Resting(m.books) <= orders
    && m.totalTrades == |m.history| % WRAP
    && m.totalVolume == SumQuantity(m.history) % WRAP
  }

  lemma {:induction false} HandleCounts(book: Book, o: Order)
    requires Open(book) && o.filled == 0 && o.quantity > 0
    ensures var h := Handle(book, o);
      && |h.book| == |book| - h.removed + (if h.fate.Rested? then 1 else 0)
      && |h.trades| + |h.book| <= |book| + 1
  {
    hide Sweep, ScanAccepts;
    SweepIsAmortised(book, o);
  }

  lemma {:induction false} NewOrderCounts(m: Venue, o: Order, capacity: nat, orders: nat)
    requires AllOpen(m) && o.filled == 0 && Counted(m, capacity, orders)
    ensures Counted(NewOrder(m, o).0, capacity, orders + 1)
  {
    hide Handle, Resting, SumQuantity;
    if m.free > 0 && IsValidOrder(o) {
      var h := Handle(BookOf(m, o.symbol), o);
      HandleCounts(BookOf(m, o.symbol), o);
      RestingUpdate(m, o.symbol, h.book);
      SumQuantityConcat(m.history, h.trades);
      ModAdd(|m.history|, |h.trades|);
      ModAdd(SumQuantity(m.history), SumQuantity(h.trades));
    }
  }

  lemma {:induction false} CancelCounts(m: Venue, id: OrderID, s: Symbol, capacity: nat, orders: nat)
    requires AllOpen(m) && Counted(m, capacity, orders)
    ensures Counted(CancelOrder(m, id, s).0, capacity, orders)
  {
    hide IndexOf, Resting;
    RestingUpdate(m, s, BookOf(CancelOrder(m, id, s).0, s));
  }

  /** Over any run, with any identifiers. */
  lemma {:induction false} RunCounts(capacity: nat, ops: seq<Op>)
    requires Unfilled(ops)
    ensures Counted(Run(Start(capacity), ops), capacity, NewOrders(ops))
  {
    if ops == [] {
      assert SumQuantity([]) == 0;
    } else {
      hide NewOrder, CancelOrder, Counted;
      var n := |ops| - 1;
      var m := Run(Start(capacity), ops[..n]);
      RunCounts(capacity, ops[..n]);
      match ops[n]
      case New(o) => NewOrderCounts(m, o, capacity, NewOrders(ops[..n]));
      case Cancel(id, s) => CancelCounts(m, id, s, capacity, NewOrders(ops[..n]));
    }
  }

  // ---------------------------------------------------------------- the lost slots, call by call

  /** How many calls of a run lose their slot. */
  function LosingCalls(m: Venue, ops: seq<Op>): nat
    requires AllOpen(m) && Unfilled(ops)
  {
    if ops == [] then 0
    else
      var n := |ops| - 1;
      LosingCalls(m, ops[..n]) + if ops[n].New? && LosesItsSlot(Run(m, ops[..n]), ops[n].order) then 1 else 0
  }

  /** Over any run the slots lost are as many as the losing calls; nothing is lost exactly when no call is a
      killed fill-or-kill order or a market order that asks for more than there is. */
  lemma {:induction false} LostSlotsAreLosingCalls(capacity: nat, ops: seq<Op>)
    requires Unfilled(ops)
    ensures Run(Start(capacity), ops).unreturned == LosingCalls(Start(capacity), ops)
    ensures Run(Start(capacity), ops).unreturned == 0 <==>
      forall i :: 0 <= i < |ops| && ops[i].New? ==> !LosesItsSlot(Run(Start(capacity), ops[..i]), ops[i].order)
  {
    hide LosesItsSlot, NewOrder, CancelOrder;
    if ops != [] {
      var n := |ops| - 1;
      LostSlotsAreLosingCalls(capacity, ops[..n]);
      LastCallLoses(Start(capacity), ops);
      forall i | 0 <= i < n ensures ops[..n][..i] == ops[..i] && ops[..n][i] == ops[i] {
      }
    }
  }

  lemma {:induction false} LastCallLoses(m: Venue, ops: seq<Op>)
    requires AllOpen(m) && Unfilled(ops) && ops != []
    ensures var n := |ops| - 1;
      Run(m, ops).unreturned == Run(m, ops[..n]).unreturned
        + if ops[n].New? && LosesItsSlot(Run(m, ops[..n]), ops[n].order) then 1 else 0
  {
    hide LosesItsSlot, NewOrder, IndexOf;
    var n := |ops| - 1;
    match ops[n]
    case New(o) => SlotLostIff(Run(m, ops[..n]), o);
    case Cancel(_, _) =>
  }

  /** Nothing rests and nothing is free: every slot was lost. */
  predicate Exhausted(m: Venue) {
    m.free == 0 && AllEmpty(m)
  }

  /** Once every slot is lost no later operation trades, rests or cancels anything. */
  lemma {:induction false} ExhaustedForever(m: Venue, ops: seq<Op>)
    requires AllOpen(m) && Exhausted(m) && Unfilled(ops)
    ensures Exhausted(Run(m, ops)) && Run(m, ops).history == m.history
  {
    if ops != [] {
      ExhaustedForever(m, ops[..|ops| - 1]);
    }
  }

  /** An order for one share that finds an empty book: fill-or-kill, or market as a client can send it. */
  function UnfillableOrder(kind: OrderType, id: OrderID): (o: Order)
    ensures o.filled == 0
  {
    Order(id, [65], 1, Buy, kind, 1.0, 1, 0)
  }

  function UnfillableOrders(kind: OrderType, n: nat): (ops: seq<Op>)
    requires n < WRAP
    ensures |ops| == n && Unfilled(ops)
  {
    seq(n, i requires 0 <= i < n => New(UnfillableOrder(kind, i + 1)))
  }

  lemma {:induction false} UnfillableSnoc(kind: OrderType, n: nat)
    requires 0 < n < WRAP
    ensures UnfillableOrders(kind, n) == UnfillableOrders(kind, n - 1) + [New(UnfillableOrder(kind, n))]
  {
  }

  predicate AllEmpty(m: Venue) {
    forall s :: s in m.books ==> m.books[s] == []
  }

  lemma {:induction false} NothingToTake(o: Order)
    requires o.IsOpen()
    ensures !ScanAccepts([], o) && Sweep([], o) == Swept([], o, [])
  {
    assert ScanOrder([], o) == [];
  }

  lemma {:induction false} LoseOne(m: Venue, kind: OrderType, id: OrderID)
    requires AllOpen(m) && AllEmpty(m) && m.free > 0 && (kind.FillOrKill? || kind.Market?)
    ensures var m' := NewOrder(m, UnfillableOrder(kind, id)).0;
      AllEmpty(m') && m'.free == m.free - 1 && m'.unreturned == m.unreturned + 1 && m'.history == m.history
  {
    hide ScanAccepts, Sweep;
    NothingToTake(UnfillableOrder(kind, id));
    assert m.history + [] == m.history;
  }

  predicate Drained(m: Venue, capacity: nat, n: nat) {
    AllEmpty(m) && m.free == capacity - n && m.unreturned == n && m.history == []
  }

  lemma {:induction false} LoseOneMore(kind: OrderType, capacity: nat, ops: seq<Op>, n: nat)
    requires Unfilled(ops) && (kind.FillOrKill? || kind.Market?)
    requires 0 < n <= capacity < WRAP && Drained(Run(Start(capacity), ops), capacity, n - 1)
    ensures Drained(Run(Start(capacity), ops + [New(UnfillableOrder(kind, n))]), capacity, n)
  {
    hide NewOrder, Run;
    RunSnoc(Start(capacity), ops, New(UnfillableOrder(kind, n)));
    LoseOne(Run(Start(capacity), ops), kind, n);
  }

  lemma {:induction false} UnfillablesDrain(kind: OrderType, capacity: nat, n: nat)
    requires n <= capacity < WRAP && (kind.FillOrKill? || kind.Market?)
    ensures Drained(Run(Start(capacity), UnfillableOrders(kind, n)), capacity, n)
  {
    if n == 0 {
      assert UnfillableOrders(kind, n) == [];
    } else {
      hide Run, Drained, UnfillableOrder, UnfillableOrders;
      UnfillablesDrain(kind, capacity, n - 1);
      LoseOneMore(kind, capacity, UnfillableOrders(kind, n - 1), n);
      UnfillableSnoc(kind, n);
    }
  }

  /** As many unfillable orders as there are slots, fill-or-kill or market, bring the engine to that state,
      and from then on no run whatever produces a trade. */
  lemma {:induction false} UnfillablesExhaustThePool(kind: OrderType, capacity: nat, later: seq<Op>)
    requires capacity < WRAP && (kind.FillOrKill? || kind.Market?) && Unfilled(later)
    ensures |UnfillableOrders(kind, capacity)| == capacity
    ensures var m := Run(Start(capacity), UnfillableOrders(kind, capacity));
      Exhausted(m) && Run(m, later).history == []
  {
    UnfillablesDrain(kind, capacity, capacity);
    ExhaustedForever(Run(Start(capacity), UnfillableOrders(kind, capacity)), later);
  }
}
