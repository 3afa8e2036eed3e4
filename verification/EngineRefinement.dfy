/** The steps by which the engine's calls are shown to be the reference engine's, on values. */
module EngineRefinement {
  import opened Types
  import opened NaiveBook
  import opened SweepLaws
  import opened FillOrKill
  import opened ReferenceEngine
  import opened BookModel
  import opened EngineModel

  function ContentsOf(books: map<Symbol, BookState>): map<Symbol, Book> {
    map s | s in books :: books[s].contents
  }

  /** Bookkeeping of a matching loop: the trades so far and the sweep still to do make up the whole sweep,
      and the counters have moved by what was traded. */
  predicate Tally(goal: Swept, trades: seq<Trade>, rest: Swept, tt0: u64, tt: u64, tv0: u64, tv: u64) {
    && goal == Swept(trades + rest.trades, rest.taker, rest.book)
    && tt == (tt0 + |trades|) % WRAP
    && tv == (tv0 + SumQuantity(trades)) % WRAP
  }

  lemma {:induction false} StartTally(goal: Swept, tt: u64, tv: u64)
    ensures Tally(goal, [], goal, tt, tt, tv, tv)
  {
    assert [] + goal.trades == goal.trades;
  }

  lemma {:induction false} StepTally(goal: Swept, trades: seq<Trade>, rest: Swept, t: Trade, rest': Swept, tt0: u64,
      tt: u64, tv0: u64, tv: u64)
    requires Tally(goal, trades, rest, tt0, tt, tv0, tv)
    requires rest == Swept([t] + rest'.trades, rest'.taker, rest'.book)
    ensures Tally(goal, trades + [t], rest', tt0, Add64(tt, 1), tv0, Add64(tv, t.quantity))
  {
    assert trades + [t] + rest'.trades == trades + ([t] + rest'.trades);
    SumQuantityConcat(trades, [t]);
    assert [t][1..] == [];
    assert SumQuantity([t]) == t.quantity;
    ModAdd(tt0 + |trades|, 1);
    ModAdd(tv0 + SumQuantity(trades), t.quantity);
  }

  lemma {:induction false} SweepStops(book: Book, taker: Order)
    requires Open(book) && taker.filled <= taker.quantity && !CanTrade(book, taker)
    ensures Sweep(book, taker) == Swept([], taker, book)
  {
  }

  lemma {:induction false} ContentsAfter(books: map<Symbol, BookState>, s: Symbol, st: BookState)
    ensures ContentsOf(books[s := st]) == ContentsOf(books)[s := st.contents]
  {
  }

  lemma {:induction false} OpenContents(books: map<Symbol, BookState>)
    requires OpenBooks(books)
    ensures forall m: Venue :: m.books == ContentsOf(books) ==> AllOpen(m)
  {
  }

  lemma {:induction false} OpenContentsOf(books: map<Symbol, BookState>, s: Symbol, contents: Book)
    requires OpenBooks(books) && contents == if s in books then books[s].contents else []
    ensures Open(contents)
  {
  }

  lemma {:induction false} ValidIsPositive(o: Order)
    requires IsValidOrder(o)
    ensures o.quantity > 0
  {
  }

  lemma {:induction false} OpenAfter(books: map<Symbol, BookState>, s: Symbol, st: BookState)
    requires OpenBooks(books) && Open(st.contents)
    ensures OpenBooks(books[s := st])
  {
  }

  lemma {:induction false} WithoutDrops(book: Book, id: OrderID)
    ensures var k := IndexOf(book, id);
      && (k == -1 <==> Get(book, id).None?)
      && (k >= 0 ==> Get(book, id) == Some(book[k]) && Without(book, id) == Drop(book, k))
      && (k == -1 ==> Without(book, id) == book)
      && (Open(book) ==> Open(Without(book, id)))
  {
  }

  lemma {:induction false} CancelRefines(m: Venue, books: map<Symbol, BookState>, s: Symbol, contents: Book,
      st: BookState, id: OrderID)
    requires OpenBooks(books) && AllOpen(m) && m.books == ContentsOf(books)
    requires contents == if s in books then books[s].contents else []
    requires st.contents == Without(contents, id)
    ensures var (m', r) := ReferenceEngine.CancelOrder(m, id, s);
      && r == Get(contents, id)
      && m' == m.(books := ContentsOf(books[s := st]), free := m.free + if r.Some? then 1 else 0)
    ensures OpenBooks(books[s := st])
  {
    hide IndexOf, Get, Without, Drop;
    WithoutDrops(contents, id);
    BookOfContents(m, books, s);
    assert Open(contents);
    ContentsAfter(books, s, st);
    OpenAfter(books, s, st);
  }

  /** What becomes of an order once matching has stopped. */
  function Disposal(o: Order): Fate {
    if !o.IsOpen() then Completed
    else match o.kind
      case ImmediateOrCancel => RemainderCancelled
      case Market => RemainderDropped
      case _ => Rested
  }

  lemma {:induction false} HandledBySweep(book: Book, o: Order)
    requires Open(book) && o.filled == 0 && o.quantity > 0
    ensures o.kind.FillOrKill? && !ScanAccepts(book, o) ==> Handle(book, o) == Handled([], book, Killed, 0)
    ensures !(o.kind.FillOrKill? && !ScanAccepts(book, o)) ==>
      var r := Sweep(book, o);
      var fate := Disposal(r.taker);
      Handle(book, o) == Handled(r.trades, r.book + (if fate.Rested? then [r.taker] else []), fate, |book| - |r.book|)
  {
    hide Sweep, ScanAccepts;
    var r := Sweep(book, o);
    assert r.book + [] == r.book;
  }

  lemma {:induction false} NoOrdersUnique()
    ensures UniqueIds([])
  {
  }

  lemma {:induction false} RefusedRefines(m: Venue, o: Order)
    requires AllOpen(m) && o.filled == 0 && (m.free == 0 || !IsValidOrder(o))
    ensures NewOrder(m, o) == (m, []) && !Clashes(m, o)
  {
  }

  lemma {:induction false} BookOfContents(m: Venue, books: map<Symbol, BookState>, s: Symbol)
    requires m.books == ContentsOf(books)
    ensures BookOf(m, s) == if s in books then books[s].contents else []
  {
  }

  lemma {:induction false} AcceptedRefines(m: Venue, books: map<Symbol, BookState>, o: Order, contents: Book,
      st: BookState)
    requires OpenBooks(books) && AllOpen(m) && m.books == ContentsOf(books)
    requires m.free > 0 && o.filled == 0 && IsValidOrder(o)
    requires contents == if o.symbol in books then books[o.symbol].contents else []
    requires Open(contents) && st.contents == Handle(contents, o).book
    ensures OpenBooks(books[o.symbol := st])
    ensures var (m', trades) := NewOrder(m, o);
      var h := Handle(contents, o);
      && trades == h.trades
      && m' == Venue(ContentsOf(books[o.symbol := st]),
                     m.history + h.trades,
                     m.free - 1 + h.removed + (if h.fate.ReturnsSlot() then 1 else 0),
                     m.unreturned + (if h.fate.LosesSlot() then 1 else 0),
                     if h.fate.Rested? then Add64(m.totalOrders, 1) else m.totalOrders,
                     (m.totalTrades + |h.trades|) % WRAP,
                     (m.totalVolume + SumQuantity(h.trades)) % WRAP)
  {
    hide Handle, Open, OpenBooks, IsValidOrder, SumQuantity;
    BookOfContents(m, books, o.symbol);
    ContentsAfter(books, o.symbol, st);
    OpenAfter(books, o.symbol, st);
  }

  lemma {:induction false} RetireAt(contents: Book, filled: Book, k: nat)
    requires k < |contents| == |filled| && UniqueIds(filled) && filled == contents[k := filled[k]]
    ensures Without(filled, filled[k].id) == Drop(contents, k) && Get(filled, filled[k].id) == Some(filled[k])
  {
    hide IndexOf;
    WithoutIds(filled, k, filled[k].id);
    GetIs(filled, filled[k].id);
    assert Drop(filled, k) == Drop(contents, k);
  }
}
