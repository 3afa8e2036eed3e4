/** What holds after every run of new orders and cancels on the reference engine.  The engine class is
    proved to return what the reference engine returns, so these are statements about its runs too. */
module ReferenceRuns {
  import opened Types
  import opened NaiveBook
  import opened SweepLaws
  import opened FillOrKill
  import opened ReferenceEngine

  datatype Op = New(order: Order) | Cancel(id: OrderID, symbol: Symbol)

  datatype Reply = Executed(trades: seq<Trade>) | Cancelled(order: Option<Order>)

  predicate Unfilled(ops: seq<Op>) {
    forall i :: 0 <= i < |ops| && ops[i].New? ==> ops[i].order.filled == 0
  }

  /** Orders arrive unfilled and no identifier is used twice within a symbol. */
  predicate WellPosed(ops: seq<Op>) {
    && Unfilled(ops)
    && forall i, j :: 0 <= i < j < |ops| && ops[i].New? && ops[j].New? && ops[i].order.symbol == ops[j].order.symbol
         ==> ops[i].order.id != ops[j].order.id
  }

  function Start(capacity: nat): Venue {
    Venue(map[], [], capacity, 0, 0, 0, 0)
  }

  function Step(m: Venue, op: Op): (r: (Venue, Reply))
    requires AllOpen(m) && (op.New? ==> op.order.filled == 0)
    ensures AllOpen(r.0)
  {
    match op
    case New(o) => var (m', trades) := NewOrder(m, o); (m', Executed(trades))
    case Cancel(id, symbol) => var (m', order) := CancelOrder(m, id, symbol); (m', Cancelled(order))
  }

  function Run(m: Venue, ops: seq<Op>): (r: Venue)
    requires AllOpen(m) && Unfilled(ops)
    ensures AllOpen(r)
  {
    if ops == [] then m else
    var n := |ops| - 1;
    Step(Run(m, ops[..n]), ops[n]).0
  }

  lemma {:induction false} RunSnoc(m: Venue, ops: seq<Op>, op: Op)
    requires AllOpen(m) && (op.New? ==> op.order.filled == 0)
    requires Unfilled(ops)
    ensures Run(m, ops + [op]) == Step(Run(m, ops), op).0
  {
    assert (ops + [op])[..|ops|] == ops;
  }

  lemma {:induction false} RunOne(m: Venue, ops: seq<Op>)
    requires AllOpen(m) && |ops| <= 1 && Unfilled(ops)
    ensures Run(m, ops) == if ops == [] then m else Step(m, ops[0]).0
  {
    if ops != [] {
      RunSnoc(m, [], ops[0]);
      assert [] + [ops[0]] == ops;
    }
  }

  lemma {:induction false} RunConcat(m: Venue, a: seq<Op>, b: seq<Op>)
    requires AllOpen(m)
    requires Unfilled(a)
    requires Unfilled(b)
    ensures Run(m, a + b) == Run(Run(m, a), b)
  {
    hide Step;
    if b == [] {
      assert a + b == a;
    } else {
      var n := |b| - 1;
      RunConcat(m, a, b[..n]);
      assert (a + b)[..|a| + n] == a + b[..n];
    }
  }

  // ---------------------------------------------------------------- admissible runs

  /** No order comes to rest under an identifier that rests in its symbol's book already. */
  predicate Admissible(m: Venue, ops: seq<Op>)
    requires AllOpen(m)
  {
    && Unfilled(ops)
    && forall i :: 0 <= i < |ops| && ops[i].New? ==> !Clashes(Run(m, ops[..i]), ops[i].order)
  }

  lemma {:induction false} AdmissibleAt(m: Venue, ops: seq<Op>, n: nat)
    requires AllOpen(m) && Admissible(m, ops) && n < |ops|
    ensures Unfilled(ops) && Unfilled(ops[..n]) && (ops[n].New? ==> ops[n].order.filled == 0)
    ensures ops[n].New? ==> !Clashes(Run(m, ops[..n]), ops[n].order)
    ensures Run(m, ops[..n + 1]) == Step(Run(m, ops[..n]), ops[n]).0
  {
    hide Clashes, Step;
    assert ops[..n + 1] == ops[..n] + [ops[n]];
    RunSnoc(m, ops[..n], ops[n]);
  }

  lemma {:induction false} AdmissibleIsUnfilled(m: Venue, ops: seq<Op>)
    requires AllOpen(m) && Admissible(m, ops)
    ensures Unfilled(ops)
  {
  }

  /** A run is admissible if and only if its first part is, and its second part from where the first led. */
  lemma {:induction false} AdmissibleConcat(m: Venue, a: seq<Op>, b: seq<Op>)
    requires AllOpen(m) && Unfilled(a)
    ensures Admissible(m, a + b) <==> Admissible(m, a) && Admissible(Run(m, a), b)
  {
    hide Clashes, Run;
    assert Unfilled(a + b) <==> Unfilled(b) by {
      assert forall i :: 0 <= i < |b| ==> b[i] == (a + b)[|a| + i];
    }
    if Unfilled(b) {
      forall i | 0 <= i < |a| ensures (a + b)[i] == a[i] && (a + b)[..i] == a[..i] {
      }
      forall i | 0 <= i < |b|
        ensures (a + b)[|a| + i] == b[i] && Run(m, (a + b)[..|a| + i]) == Run(Run(m, a), b[..i])
      {
        assert (a + b)[..|a| + i] == a + b[..i];
        RunConcat(m, a, b[..i]);
      }
      AdmissibleParts(m, a, b);
    }
  }

  lemma {:induction false} AdmissibleParts(m: Venue, a: seq<Op>, b: seq<Op>)
    requires AllOpen(m) && Unfilled(a) && Unfilled(b) && Unfilled(a + b)
    requires forall i :: 0 <= i < |a| ==> (a + b)[i] == a[i] && (a + b)[..i] == a[..i]
    requires forall i :: 0 <= i < |b| ==>
      (a + b)[|a| + i] == b[i] && Run(m, (a + b)[..|a| + i]) == Run(Run(m, a), b[..i])
    ensures Admissible(m, a + b) <==> Admissible(m, a) && Admissible(Run(m, a), b)
  {
    hide Clashes, Run;
    var all := a + b;
    if Admissible(m, a) && Admissible(Run(m, a), b) {
      forall i | 0 <= i < |all| && all[i].New? ensures !Clashes(Run(m, all[..i]), all[i].order) {
        if i >= |a| {
          assert all[|a| + (i - |a|)] == b[i - |a|];
        }
      }
    }
  }

  lemma {:induction false} CancelBook(m: Venue, id: OrderID, symbol: Symbol, s: Symbol)
    requires AllOpen(m)
    ensures var book, book' := BookOf(m, s), BookOf(CancelOrder(m, id, symbol).0, s);
      book' == book || (IndexOf(book, id) >= 0 && book' == Drop(book, IndexOf(book, id)))
  {
    hide IndexOf, Drop;
  }

  lemma {:induction false} CancelKeepsUnique(m: Venue, id: OrderID, symbol: Symbol)
    requires AllOpen(m) && AllUnique(m)
    ensures AllUnique(CancelOrder(m, id, symbol).0)
  {
    hide IndexOf, BookOf, CancelOrder, Drop, UniqueIds, AllOpen;
    forall s ensures UniqueIds(BookOf(CancelOrder(m, id, symbol).0, s)) {
      CancelBook(m, id, symbol, s);
      var book := BookOf(m, s);
      var k := IndexOf(book, id);
      if k >= 0 {
        GetAround(book, k, book[k], id);
      }
    }
  }

  lemma {:induction false} UniqueAfterStep(m: Venue, op: Op)
    requires AllOpen(m) && AllUnique(m) && (op.New? ==> op.order.filled == 0)
    ensures AllUnique(Step(m, op).0) <==> (op.New? ==> !Clashes(m, op.order))
  {
    hide NewOrder, CancelOrder, Clashes, AllUnique, AllOpen;
    match op
    case New(o) => UniqueIffNoClash(m, o);
    case Cancel(id, symbol) => CancelKeepsUnique(m, id, symbol);
  }

  lemma {:induction false} AdmissibleStaysUnique(m: Venue, ops: seq<Op>, n: nat)
    requires AllOpen(m) && AllUnique(m) && Admissible(m, ops) && n <= |ops|
    ensures Unfilled(ops[..n]) && AllUnique(Run(m, ops[..n]))
  {
    hide Step, AllUnique, Clashes, AllOpen;
    if n == 0 {
      RunOne(m, []);
    } else {
      AdmissibleStaysUnique(m, ops, n - 1);
      AdmissibleAt(m, ops, n - 1);
      UniqueAfterStep(Run(m, ops[..n - 1]), ops[n - 1]);
    }
  }

  /** The admissible runs are exactly those that never leave an identifier twice in a book. */
  lemma {:induction false} AdmissibleIffUnique(m: Venue, ops: seq<Op>)
    requires AllOpen(m) && AllUnique(m) && Unfilled(ops)
    ensures Admissible(m, ops) <==> forall n :: 0 <= n <= |ops| ==> AllUnique(Run(m, ops[..n]))
  {
    hide Step, AllUnique, Clashes, Run, AllOpen;
    if Admissible(m, ops) {
      forall n | 0 <= n <= |ops| ensures AllUnique(Run(m, ops[..n])) {
        AdmissibleStaysUnique(m, ops, n);
      }
    } else {
      var n :| 0 <= n < |ops| && ops[n].New? && Clashes(Run(m, ops[..n]), ops[n].order);
      assert ops[..n + 1] == ops[..n] + [ops[n]];
      RunSnoc(m, ops[..n], ops[n]);
      if AllUnique(Run(m, ops[..n])) {
        UniqueAfterStep(Run(m, ops[..n]), ops[n]);
      }
    }
  }

  // ---------------------------------------------------------------- the shape of every book

  /** The order is one of those submitted, up to its fill. */
  predicate CameFrom(o: Order, ops: seq<Op>) {
    exists i :: 0 <= i < |ops| && ops[i].New? && SameOrder(o, ops[i].order)
  }

  /** Every resting order is open, is one that was submitted to this book, and kept everything but its
      fill; no bid reaches an ask. */
  predicate Sound(book: Book, symbol: Symbol, ops: seq<Op>) {
    && Open(book) && Uncrossed(book)
    && forall o :: o in book ==> o.symbol == symbol && CameFrom(o, ops)
  }

  lemma {:induction false} CameFromLonger(o: Order, ops: seq<Op>)
    requires ops != [] && CameFrom(o, ops[..|ops| - 1])
    ensures CameFrom(o, ops)
  {
    var i :| 0 <= i < |ops| - 1 && ops[i].New? && SameOrder(o, ops[..|ops| - 1][i].order);
    assert ops[..|ops| - 1][i] == ops[i];
  }

  lemma {:induction false} SoundLater(book: Book, symbol: Symbol, ops: seq<Op>)
    requires ops != [] && Sound(book, symbol, ops[..|ops| - 1])
    ensures Sound(book, symbol, ops)
  {
    hide CameFrom;
    forall o | o in book ensures CameFrom(o, ops) {
      CameFromLonger(o, ops);
    }
  }

  lemma {:induction false} SameFrom(x: Order, y: Order, ops: seq<Op>)
    requires SameOrder(x, y) && CameFrom(y, ops)
    ensures CameFrom(x, ops)
  {
    var i :| 0 <= i < |ops| && ops[i].New? && SameOrder(y, ops[i].order);
    assert SameOrder(x, ops[i].order);
  }

  lemma {:induction false} SoundAfterSweep(book: Book, o: Order, symbol: Symbol, ops: seq<Op>)
    requires Sound(book, symbol, ops) && CameFrom(o, ops) && o.symbol == symbol && o.filled == 0
    ensures var r := Sweep(book, o);
      && Sound(r.book, symbol, ops)
      && (r.taker.IsOpen() && !o.kind.Market? ==> Sound(r.book + [r.taker], symbol, ops))
  {
    hide Sweep, CameFrom;
    var r := Sweep(book, o);
    SweepUncrossed(book, o);
    SameFrom(r.taker, o, ops);
    forall x | x in r.book
      ensures x.symbol == symbol && CameFrom(x, ops)
    {
      SweepKeepsOrders(book, o, x);
      var y :| y in book && SameOrder(x, y);
      SameFrom(x, y, ops);
    }
  }

  /** Over any run, whatever identifiers it uses and reuses. */
  lemma {:induction false} BooksStaySound(capacity: nat, ops: seq<Op>, symbol: Symbol)
    requires Unfilled(ops)
    ensures Sound(BookOf(Run(Start(capacity), ops), symbol), symbol, ops)
  {
    if ops != [] {
      hide Sound, NewOrder, CancelOrder, CameFrom;
      var n := |ops| - 1;
      var m := Run(Start(capacity), ops[..n]);
      var book := BookOf(m, symbol);
      BooksStaySound(capacity, ops[..n], symbol);
      SoundLater(book, symbol, ops);
      match ops[n]
      case New(o) =>
        NewOrderBook(m, o, symbol);
        if o.symbol == symbol && m.free > 0 && IsValidOrder(o) {
          LastIsSubmitted(ops);
          SoundIsOpen(book, symbol, ops);
          SoundAfterSweep(book, o, symbol, ops);
        }
      case Cancel(id, s) =>
        SoundAfterCancel(m, id, s, symbol, ops);
    } else {
      assert Sound([], symbol, ops);
    }
  }

  lemma {:induction false} LastIsSubmitted(ops: seq<Op>)
    requires ops != [] && ops[|ops| - 1].New?
    ensures CameFrom(ops[|ops| - 1].order, ops)
  {
    var o := ops[|ops| - 1].order;
    assert SameOrder(o, ops[|ops| - 1].order);
  }

  lemma {:induction false} SoundIsOpen(book: Book, symbol: Symbol, ops: seq<Op>)
    requires Sound(book, symbol, ops)
    ensures Open(book) && forall o :: o in book ==> o.symbol == symbol
  {
  }

  lemma {:induction false} SoundAfterCancel(m: Venue, id: OrderID, s: Symbol, symbol: Symbol, ops: seq<Op>)
    requires AllOpen(m) && Sound(BookOf(m, symbol), symbol, ops)
    ensures Sound(BookOf(CancelOrder(m, id, s).0, symbol), symbol, ops)
  {
    hide IndexOf, Sound, Drop;
    var book, k := BookOf(m, s), IndexOf(BookOf(m, s), id);
    if symbol == s && k >= 0 {
      SoundAfterDrop(book, k, symbol, ops);
    }
  }

  lemma {:induction false} SoundAfterDrop(book: Book, k: nat, symbol: Symbol, ops: seq<Op>)
    requires Sound(book, symbol, ops) && k < |book|
    ensures Sound(Drop(book, k), symbol, ops)
  {
    hide CameFrom;
    assert forall x :: x in Drop(book, k) ==> x in book;
  }

  lemma {:induction false} NewOrderBook(m: Venue, o: Order, symbol: Symbol)
    requires AllOpen(m) && o.filled == 0
    ensures var book := BookOf(m, symbol);
      var book' := BookOf(NewOrder(m, o).0, symbol);
      var r := Sweep(book, o);
      || book' == book
      || (o.symbol == symbol && m.free > 0 && IsValidOrder(o)
          && (book' == r.book || (r.taker.IsOpen() && !o.kind.Market? && book' == r.book + [r.taker])))
  {
    hide Sweep, ScanAccepts;
  }

  /** No run ever leaves a crossed or locked book, whatever the order types and identifiers. */
  lemma {:induction false} NeverCrossed(capacity: nat, ops: seq<Op>, symbol: Symbol, bid: Order, ask: Order)
    requires Unfilled(ops)
    requires bid in BookOf(Run(Start(capacity), ops), symbol) && bid.side.Buy?
    requires ask in BookOf(Run(Start(capacity), ops), symbol) && ask.side.Sell?
    ensures bid.price < ask.price
  {
    BooksStaySound(capacity, ops, symbol);
  }

  // ---------------------------------------------------------------- identifiers used once

  predicate Submits(op: Op, symbol: Symbol, id: OrderID) {
    op.New? && op.order.symbol == symbol && op.order.id == id
  }

  /** The identifier is submitted to this symbol at most once; others may be reused. */
  predicate UsedOnce(ops: seq<Op>, symbol: Symbol, id: OrderID) {
    forall i, j :: 0 <= i < j < |ops| ==> !(Submits(ops[i], symbol, id) && Submits(ops[j], symbol, id))
  }

  /** The order submitted last under an identifier, if any was. */
  function Submitted(ops: seq<Op>, symbol: Symbol, id: OrderID): Option<Order> {
    if ops == [] then None else
    var n := |ops| - 1;
    if Submits(ops[n], symbol, id) then Some(ops[n].order) else Submitted(ops[..n], symbol, id)
  }

  lemma {:induction false} SubmittedIs(ops: seq<Op>, symbol: Symbol, id: OrderID)
    ensures Submitted(ops, symbol, id).Some? <==> exists i :: 0 <= i < |ops| && Submits(ops[i], symbol, id)
    ensures Submitted(ops, symbol, id).Some? ==>
      New(Submitted(ops, symbol, id).value) in ops && Submits(New(Submitted(ops, symbol, id).value), symbol, id)
  {
    if ops != [] {
      SubmittedIs(ops[..|ops| - 1], symbol, id);
    }
  }

  lemma {:induction false} NotYetSubmitted(ops: seq<Op>, symbol: Symbol, id: OrderID)
    requires ops != [] && UsedOnce(ops, symbol, id) && Submits(ops[|ops| - 1], symbol, id)
    ensures Submitted(ops[..|ops| - 1], symbol, id).None?
  {
    hide Submits;
    SubmittedIs(ops[..|ops| - 1], symbol, id);
  }

  /** Identifiers used once per symbol never rest when they arrive. */
  lemma {:induction false} WellPosedIsAdmissible(capacity: nat, ops: seq<Op>)
    requires WellPosed(ops)
    ensures Admissible(Start(capacity), ops)
    ensures forall i :: 0 <= i < |ops| && ops[i].New? ==>
      !HasId(BookOf(Run(Start(capacity), ops[..i]), ops[i].order.symbol), ops[i].order.id)
    ensures forall symbol, id :: UsedOnce(ops, symbol, id)
  {
    hide Run, Clashes;
    forall i | 0 <= i < |ops| && ops[i].New?
      ensures !HasId(BookOf(Run(Start(capacity), ops[..i]), ops[i].order.symbol), ops[i].order.id)
      ensures !Clashes(Run(Start(capacity), ops[..i]), ops[i].order)
    {
      var m, o := Run(Start(capacity), ops[..i]), ops[i].order;
      BooksStaySound(capacity, ops[..i], o.symbol);
      var book := BookOf(m, o.symbol);
      forall k | 0 <= k < |book| ensures book[k].id != o.id {
        assert book[k] in book;
        var j :| 0 <= j < i && ops[..i][j].New? && SameOrder(book[k], ops[..i][j].order);
        assert ops[..i][j] == ops[j];
      }
      FreshNeverClashes(m, o);
    }
  }

  // ---------------------------------------------------------------- the fill ledger

  /** The trades of one symbol. */
  function TradesIn(trades: seq<Trade>, symbol: Symbol): seq<Trade> {
    if trades == [] then []
    else (if trades[0].symbol == symbol then [trades[0]] else []) + TradesIn(trades[1..], symbol)
  }

  lemma {:induction false} TradesInConcat(a: seq<Trade>, b: seq<Trade>, symbol: Symbol)
    ensures TradesIn(a + b, symbol) == TradesIn(a, symbol) + TradesIn(b, symbol)
  {
    if a == [] {
      assert a + b == b;
    } else {
      assert (a + b)[1..] == a[1..] + b;
      TradesInConcat(a[1..], b, symbol);
      SeqAssociates(if a[0].symbol == symbol then [a[0]] else [], TradesIn(a[1..], symbol), TradesIn(b, symbol));
    }
  }

  lemma {:induction false} TradesInOne(trades: seq<Trade>, own: Symbol, symbol: Symbol)
    requires forall i :: 0 <= i < |trades| ==> trades[i].symbol == own
    ensures TradesIn(trades, symbol) == if symbol == own then trades else []
  {
    if trades != [] {
      TradesInOne(trades[1..], own, symbol);
    }
  }

  lemma {:induction false} LedgerConcat(a: seq<Trade>, b: seq<Trade>, id: OrderID)
    ensures Ledger(a + b, id) == Ledger(a, id) + Ledger(b, id)
  {
    if a == [] {
      assert a + b == b;
    } else {
      assert (a + b)[1..] == a[1..] + b;
      LedgerConcat(a[1..], b, id);
    }
  }

  /** How much the trade history says was executed for an order. */
  function Account(m: Venue, symbol: Symbol, id: OrderID): nat {
    Ledger(TradesIn(m.history, symbol), id)
  }

  /** A resting order's fill is its ledger, strictly below its quantity; no order's ledger exceeds its
      quantity; identifiers never submitted have neither ledger nor order. */
  predicate LedgerHolds(m: Venue, ops: seq<Op>, symbol: Symbol, id: OrderID) {
    var submitted, resting := Submitted(ops, symbol, id), Get(BookOf(m, symbol), id);
    && (submitted.None? ==> Account(m, symbol, id) == 0 && resting.None?)
    && (submitted.Some? ==> Account(m, symbol, id) <= submitted.value.quantity)
    && (resting.Some? ==>
          && submitted.Some?
          && resting.value == submitted.value.(filled := Account(m, symbol, id))
          && resting.value.IsOpen())
  }

  lemma {:induction false} GetAppended(book: Book, o: Order, id: OrderID)
    requires UniqueIds(book) && !HasId(book, o.id)
    ensures Get(book + [o], id) == if id == o.id then Some(o) else Get(book, id)
  {
    hide Get, IndexOf;
    var book' := book + [o];
    UniqueAppended(book, o);
    GetIs(book', id);
    if id == o.id {
      assert book'[|book|] == o;
    } else {
      GetUnless(book, book', id);
    }
  }

  lemma {:induction false} NewOrderLedger(m: Venue, o: Order, symbol: Symbol, id: OrderID)
    requires AllOpen(m) && o.filled == 0 && !Clashes(m, o)
    requires var book := BookOf(m, o.symbol);
      && UniqueIds(book) && (forall x :: x in book ==> x.symbol == o.symbol)
      && (symbol == o.symbol && id == o.id ==> !HasId(book, id))
    ensures var (m', trades) := NewOrder(m, o);
      var before, after := Get(BookOf(m, symbol), id), Get(BookOf(m', symbol), id);
      var sum := Account(m', symbol, id) - Account(m, symbol, id);
      && (symbol != o.symbol ==> sum == 0 && after == before)
      && (symbol == o.symbol && id != o.id && before.None? ==> sum == 0 && after.None?)
      && (symbol == o.symbol && id != o.id && before.Some? ==> sum >= 0 && Accounts(before, after, sum))
      && (symbol == o.symbol && id == o.id ==>
            && 0 <= sum <= o.quantity
            && (after.Some? ==> after.value == o.(filled := sum) && sum < o.quantity))
  {
    hide Sweep, Get, IndexOf, HasId, UniqueIds, Ledger, TradesIn, ScanAccepts;
    var (m', trades) := NewOrder(m, o);
    var book := BookOf(m, o.symbol);
    GetIs(book, o.id);
    GetIs(book, id);
    TradesInConcat(m.history, trades, symbol);
    LedgerConcat(TradesIn(m.history, symbol), TradesIn(trades, symbol), id);
    LedgerEmpty(id);
    TradesInOne([], o.symbol, symbol);
    assert m.history + [] == m.history;
    if m.free > 0 && IsValidOrder(o) {
      var r := Sweep(book, o);
      SweepSymbol(book, o);
      TradesInOne(trades, o.symbol, symbol);
      SweepKeepsIdsUnique(book, o);
      if Handle(book, o).fate.Rested? {
        GetAppended(r.book, r.taker, id);
      }
      if id != o.id {
        SweepLedger(book, o, id);
      } else if symbol == o.symbol {
        TakerLedger(book, o);
        GetIs(r.book, o.id);
      }
      if Get(book, id).Some? {
        var x := Get(book, id).value;
        assert x.IsOpen() && x.Fill(0) == x;
      }
    }
  }

  lemma {:induction false} LedgerEmpty(id: OrderID)
    ensures Ledger([], id) == 0
  {
  }

  lemma {:induction false} SubmittedSnoc(ops: seq<Op>, symbol: Symbol, id: OrderID)
    requires ops != []
    ensures var last := ops[|ops| - 1];
      Submitted(ops, symbol, id)
      == if Submits(last, symbol, id) then Some(last.order) else Submitted(ops[..|ops| - 1], symbol, id)
  {
  }

  lemma {:induction false} LedgerAfterNew(m: Venue, ops: seq<Op>, symbol: Symbol, id: OrderID)
    requires ops != [] && ops[|ops| - 1].New? && ops[|ops| - 1].order.filled == 0 && AllOpen(m)
    requires LedgerHolds(m, ops[..|ops| - 1], symbol, id) && AllUnique(m) && UsedOnce(ops, symbol, id)
    requires var o := ops[|ops| - 1].order;
      !Clashes(m, o) && forall x :: x in BookOf(m, o.symbol) ==> x.symbol == o.symbol
    ensures LedgerHolds(NewOrder(m, ops[|ops| - 1].order).0, ops, symbol, id)
  {
    hide Get, BookOf, NewOrder, Account, Submitted, HasId, UniqueIds, AllOpen, UsedOnce, Clashes;
    var o := ops[|ops| - 1].order;
    SubmittedSnoc(ops, symbol, id);
    if symbol == o.symbol && id == o.id {
      NotYetSubmitted(ops, symbol, id);
      GetIs(BookOf(m, symbol), id);
    }
    NewOrderLedger(m, o, symbol, id);
  }

  lemma {:induction false} LedgerAfterCancel(m: Venue, ops: seq<Op>, symbol: Symbol, id: OrderID)
    requires ops != [] && ops[|ops| - 1].Cancel? && AllOpen(m) && AllUnique(m)
    requires LedgerHolds(m, ops[..|ops| - 1], symbol, id)
    ensures var c := ops[|ops| - 1]; LedgerHolds(CancelOrder(m, c.id, c.symbol).0, ops, symbol, id)
  {
    hide Get, BookOf, CancelOrder, Submitted, UniqueIds, AllOpen, Ledger, TradesIn;
    SubmittedSnoc(ops, symbol, id);
    CancelGet(m, ops[|ops| - 1].id, ops[|ops| - 1].symbol, symbol, id);
  }

  lemma {:induction false} UsedOnceEarlier(ops: seq<Op>, symbol: Symbol, id: OrderID)
    requires ops != [] && UsedOnce(ops, symbol, id)
    ensures UsedOnce(ops[..|ops| - 1], symbol, id)
  {
    hide Submits;
  }

  lemma {:induction false} StartIsUnique(capacity: nat)
    ensures AllOpen(Start(capacity)) && AllUnique(Start(capacity))
  {
  }

  lemma {:induction false} AdmissibleEarlier(m: Venue, ops: seq<Op>)
    requires AllOpen(m) && ops != [] && Admissible(m, ops)
    ensures Admissible(m, ops[..|ops| - 1])
  {
    hide Admissible, Run;
    var n := |ops| - 1;
    AdmissibleIsUnfilled(m, ops);
    assert ops == ops[..n] + ops[n..];
    AdmissibleConcat(m, ops[..n], ops[n..]);
  }

  /** After every admissible run the fills of the resting orders are what the trade history says, for every
      symbol and every identifier it used once, also when other identifiers were reused. */
  lemma {:induction false} RunLedger(capacity: nat, ops: seq<Op>, symbol: Symbol, id: OrderID)
    requires Admissible(Start(capacity), ops) && UsedOnce(ops, symbol, id)
    ensures Unfilled(ops) && LedgerHolds(Run(Start(capacity), ops), ops, symbol, id)
  {
    if ops == [] {
      GetIs([], id);
    } else {
      hide BookOf, NewOrder, CancelOrder, LedgerHolds, Sound, AllUnique, AllOpen, Clashes, UsedOnce;
      var n := |ops| - 1;
      AdmissibleEarlier(Start(capacity), ops);
      UsedOnceEarlier(ops, symbol, id);
      StartIsUnique(capacity);
      var m := Run(Start(capacity), ops[..n]);
      RunLedger(capacity, ops[..n], symbol, id);
      AdmissibleStaysUnique(Start(capacity), ops, n);
      AdmissibleAt(Start(capacity), ops, n);
      RunWhole(Start(capacity), ops);
      match ops[n]
      case New(o) =>
        BooksStaySound(capacity, ops[..n], o.symbol);
        SoundIsOpen(BookOf(m, o.symbol), o.symbol, ops[..n]);
        LedgerAfterNew(m, ops, symbol, id);
      case Cancel(cid, s) =>
        LedgerAfterCancel(m, ops, symbol, id);
    }
  }

  lemma {:induction false} RunWhole(m: Venue, ops: seq<Op>)
    requires AllOpen(m) && Unfilled(ops) && ops != []
    ensures Run(m, ops) == Step(Run(m, ops[..|ops| - 1]), ops[|ops| - 1]).0
  {
    hide Step;
  }

  lemma {:induction false} CancelGet(m: Venue, cid: OrderID, s: Symbol, symbol: Symbol, id: OrderID)
    requires AllOpen(m) && UniqueIds(BookOf(m, s)) && UniqueIds(BookOf(m, symbol))
    ensures var m' := CancelOrder(m, cid, s).0;
      && m'.history == m.history
      && CancelOrder(m, cid, s).1 == Get(BookOf(m, s), cid)
      && Get(BookOf(m', symbol), id) == if symbol == s && id == cid then None else Get(BookOf(m, symbol), id)
  {
    hide IndexOf, HasId, UniqueIds;
    var book := BookOf(m, s);
    var k := IndexOf(book, cid);
    GetIs(book, cid);
    if k >= 0 {
      GetAround(book, k, book[k], id);
    }
  }

  /** The snapshot a cancel returns is of the one order under that identifier, as it was submitted up to its
      fill; and when the identifier was used once its fill is exactly what the history says was executed. */
  lemma {:induction false} CancelReportsLedger(capacity: nat, ops: seq<Op>, id: OrderID, symbol: Symbol)
    requires Admissible(Start(capacity), ops)
    ensures Unfilled(ops)
    ensures var m := Run(Start(capacity), ops);
      var (m', order) := CancelOrder(m, id, symbol);
      && (order.None? <==> !HasId(BookOf(m, symbol), id))
      && (order.Some? ==> order.value.id == id && order.value.symbol == symbol && CameFrom(order.value, ops))
      && (order.Some? && UsedOnce(ops, symbol, id) ==>
            order.value.filled == Account(m, symbol, id) < order.value.quantity)
      && !HasId(BookOf(m', symbol), id) && m'.history == m.history
  {
    hide Get, IndexOf, Ledger, TradesIn, NewOrder, CameFrom, UsedOnce, HasId, AllUnique, Admissible, CancelOrder, Run,
         UniqueIds, AllOpen;
    AdmissibleIsUnfilled(Start(capacity), ops);
    StartIsUnique(capacity);
    assert ops[..|ops|] == ops;
    AdmissibleStaysUnique(Start(capacity), ops, |ops|);
    var m := Run(Start(capacity), ops);
    var book := BookOf(m, symbol);
    UniqueBook(m, symbol);
    BooksStaySound(capacity, ops, symbol);
    if UsedOnce(ops, symbol, id) {
      RunLedger(capacity, ops, symbol, id);
    }
    CancelGet(m, id, symbol, symbol, id);
    GetIs(book, id);
    var m' := CancelOrder(m, id, symbol).0;
    CancelKeepsUnique(m, id, symbol);
    UniqueBook(m', symbol);
    GetIs(BookOf(m', symbol), id);
  }

  lemma {:induction false} UniqueBook(m: Venue, symbol: Symbol)
    requires AllUnique(m)
    ensures UniqueIds(BookOf(m, symbol))
  {
  }
}
