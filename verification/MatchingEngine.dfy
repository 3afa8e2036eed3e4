/** The matching engine (src/matching_engine.cpp), proved to do what the reference engine does. */
module MatchingEngine {
  import opened Types
  import opened NaiveBook
  import opened SweepLaws
  import opened FillOrKill
  import opened ReferenceEngine
  import opened ReferenceTrades
  import opened Ladder
  import opened BookModel
  import opened EngineModel
  import opened EngineRefinement
  import opened ScanLoop
  import OP = ObjectPool
  import OB = OrderBook

  class MatchingEngine {
    const orderPool: OP.ObjectPool
    var orderBooks: map<Symbol, OB.OrderBook>
    var tradeHistory: seq<Trade>
    var totalOrders: u64
    var totalTrades: u64
    var totalVolume: u64

    /** Who owns each slot. */
    ghost var owner: seq<Owner>

    // -------------------------------------------------------------- abstraction and invariant

    ghost function Books(): map<Symbol, BookState>
      reads this`orderBooks, orderBooks.Values
    {
      map s | s in orderBooks :: orderBooks[s].State()
    }

    /** Every book is kept under its own symbol and points into the pool. */
    ghost predicate BooksAtHome()
      reads this`orderBooks
    {
      forall s :: s in orderBooks ==> orderBooks[s].memory == orderPool.slots && orderBooks[s].symbol == s
    }

    /** The engine's invariant while the slots in `hand` are held by the call in progress. */
    ghost predicate Inv(hand: set<Slot>)
      reads this`orderBooks, this`owner, orderPool, orderPool.slots, orderBooks.Values
    {
      && BooksAtHome()
      && EngineInv(orderPool.slots[..], orderPool.freeIndices, owner, Books(), hand)
    }

    ghost predicate Valid()
      reads this, orderPool, orderPool.slots, orderBooks.Values
    {
      Inv({}) && OpenBooks(Books())
    }

    /** The reference engine this engine stands for. */
    ghost function Abs(): Venue
      reads this, orderPool, orderBooks.Values
    {
      Venue(ContentsOf(Books()), tradeHistory,
            |orderPool.freeIndices|, |Lost(owner)|, totalOrders, totalTrades, totalVolume)
    }

    ghost predicate HoldsBook(book: OB.OrderBook)
      reads this`orderBooks
    {
      book.symbol in orderBooks && orderBooks[book.symbol] == book
    }

    constructor (poolSize: nat)
      ensures Valid() && orderBooks == map[]
      ensures fresh(orderPool) && fresh(orderPool.slots) && orderPool.slots.Length == poolSize
      ensures Abs() == Venue(map[], [], poolSize, 0, 0, 0, 0)
    {
      orderPool := new OP.ObjectPool(poolSize);
      orderBooks, tradeHistory := map[], [];
      totalOrders, totalTrades, totalVolume := 0, 0, 0;
      owner := seq(poolSize, i => Owner.Free);
      new;
      assert Lost(owner) == {};
      assert Books() == map[];
      assert RestingSlots(owner, Books()) && BooksInv(orderPool.slots[..], Books());
      forall p | 0 <= p < |owner| ensures p in orderPool.freeIndices {
        assert orderPool.freeIndices[p] == p;
      }
      assert forall p :: 0 <= p < poolSize ==> orderPool.freeIndices[p] == p;
    }

    predicate ValidateOrder(o: Order) {
      IsValidOrder(o)
    }

    // -------------------------------------------------------------- matching

    method CreateTrade(buyOrder: Order, sellOrder: Order, quantity: Quantity, price: Price) returns (t: Trade)
      modifies this`tradeHistory, this`totalTrades, this`totalVolume
      ensures t == Trade(buyOrder.id, buyOrder.userId, sellOrder.id, sellOrder.userId, buyOrder.symbol, price, quantity)
      ensures tradeHistory == old(tradeHistory) + [t]
      ensures totalTrades == Add64(old(totalTrades), 1) && totalVolume == Add64(old(totalVolume), quantity)
    {
      t := Trade(buyOrder.id, buyOrder.userId, sellOrder.id, sellOrder.userId, buyOrder.symbol, price, quantity);
      totalTrades := Add64(totalTrades, 1);
      totalVolume := Add64(totalVolume, quantity);
      tradeHistory := tradeHistory + [t];
    }

    /** Changing one book changes one entry of the engine's state. */
    twostate lemma OnlyBookChanged(book: OB.OrderBook)
      requires orderBooks == old(orderBooks) && HoldsBook(book) && BooksAtHome()
      requires forall b :: b in orderBooks.Values && b != book ==> unchanged(b)
      ensures Books() == old(Books())[book.symbol := book.State()]
    {
      forall s | s in orderBooks && s != book.symbol ensures orderBooks[s].State() == old(orderBooks[s].State()) {
        assert orderBooks[s] in orderBooks.Values;
      }
    }

    /** So does a new one. */
    twostate lemma OnlyBookAdded(new book: OB.OrderBook)
      requires book.symbol !in old(orderBooks) && orderBooks == old(orderBooks)[book.symbol := book]
      requires old(BooksAtHome()) && book.memory == orderPool.slots
      requires forall b :: b in old(orderBooks.Values) ==> unchanged(b)
      ensures Books() == old(Books())[book.symbol := book.State()] && BooksAtHome()
    {
      forall s | s in old(orderBooks) ensures orderBooks[s].State() == old(orderBooks[s].State()) {
        assert old(orderBooks[s]) in old(orderBooks.Values);
      }
    }

    lemma InvParts(hand: set<Slot>)
      requires Inv(hand)
      ensures BooksAtHome() && EngineInv(orderPool.slots[..], orderPool.freeIndices, owner, Books(), hand)
    {
    }

    lemma InvWhole(hand: set<Slot>)
      requires BooksAtHome() && EngineInv(orderPool.slots[..], orderPool.freeIndices, owner, Books(), hand)
      ensures Inv(hand)
    {
    }

    /** Take an order out of its book; its slot is then in hand. */
    method Unlink(book: OB.OrderBook, id: OrderID, ghost hand: set<Slot>) returns (p: Option<Slot>)
      requires Inv(hand) && HoldsBook(book)
      modifies this`owner, book
      ensures p.None? <==> Get(old(book.contents), id) == None
      ensures p.None? ==> Inv(hand) && owner == old(owner) && Books() == old(Books())
      ensures p.Some? ==>
        && p.value < orderPool.slots.Length && p.value !in hand
        && Inv(hand + {p.value})
        && Get(old(book.contents), id) == Some(orderPool.slots[p.value])
        && id in old(book.orderLookup) && p.value == old(book.orderLookup)[id].slot
      ensures book.contents == Without(old(book.contents), id)
      ensures Lost(owner) == old(Lost(owner))
      ensures Books() == old(Books())[book.symbol := book.State()]
    {
      hide Inv, Books, BooksAtHome, EngineInv, Lost, IndexOf, Erased, Place, BookInv, HasId, Get, Without;
      ghost var s, mem, free, books := book.symbol, orderPool.slots[..], orderPool.freeIndices, Books();
      InvParts(hand);
      BookOfEngine(book, hand);
      BookIsEntry(book);
      IndexIsIds(s, mem, book.State(), id);
      p := book.CancelOrder(id);
      OnlyBookChanged(book);
      if p.None? {
        WithoutNone(books[s].contents, id);
        assert books[s := books[s]] == books;
        InvWhole(hand);
      } else {
        RemoveResting(mem, free, owner, books, hand, s, id);
        owner := owner[p.value := InHand];
        InvWhole(hand + {p.value});
      }
    }

    /** Hand a slot back to the pool. */
    method Release(p: Slot, ghost hand: set<Slot>)
      requires Inv(hand) && p in hand && p < orderPool.slots.Length
      modifies this`owner, orderPool`freeIndices
      ensures Inv(hand - {p})
      ensures orderPool.freeIndices == old(orderPool.freeIndices) + [p]
      ensures Lost(owner) == old(Lost(owner))
    {
      hide EngineInv, Lost;
      ghost var mem, free, books := orderPool.slots[..], orderPool.freeIndices, Books();
      GiveBack(mem, free, owner, books, hand, p);
      HandIsOwned(mem, free, owner, books, hand);
      orderPool.Deallocate(p);
      owner := owner[p := Owner.Free];
    }

    /** Record a trade in both orders. */
    method Reduce(book: OB.OrderBook, maker: Slot, taker: Slot, qty: Quantity, ghost k: nat)
      requires Inv({taker}) && HoldsBook(book)
      requires k < |book.contents| && book.contents[k].id in book.orderLookup
      requires maker == book.orderLookup[book.contents[k].id].slot < orderPool.slots.Length
      requires orderPool.slots[maker] == book.contents[k]
      requires taker < orderPool.slots.Length && orderPool.slots[taker].filled <= orderPool.slots[taker].quantity
      requires 0 < qty <= orderPool.slots[taker].Left() && qty <= book.contents[k].Left()
      modifies orderPool.slots, book`contents
      ensures Inv({taker})
      ensures orderPool.slots[taker] == old(orderPool.slots[taker]).Fill(qty)
      ensures orderPool.slots[maker] == old(orderPool.slots[maker]).Fill(qty)
      ensures book.contents == old(book.contents)[k := orderPool.slots[maker]]
      ensures Books() == old(Books())[book.symbol := book.State()]
    {
      hide EngineInv, BookInv, HasId;
      ghost var s, mem, free, books := book.symbol, orderPool.slots[..], orderPool.freeIndices, Books();
      EngineFactsOf(mem, free, owner, books, {taker}, s);
      HandIsOwned(mem, free, owner, books, {taker});
      assert books[s].lookup == book.orderLookup;
      ghost var t, m := mem[taker].Fill(qty), mem[maker].Fill(qty);
      WriteInHand(mem, free, owner, books, {taker}, taker, t);
      FillResting(mem[taker := t], free, owner, books, {taker}, s, k, m);
      NoWrap(mem[taker], qty);
      NoWrap(mem[maker], qty);

      orderPool.slots[taker] := orderPool.slots[taker].ReduceQuantity(qty);
      orderPool.slots[maker] := orderPool.slots[maker].ReduceQuantity(qty);
      book.contents := book.contents[k := m];
      assert orderPool.slots[..] == mem[taker := t][maker := m];
      OnlyBookChanged(book);
    }

    /** The tail of both matching loops: update the two orders, and retire the maker once it is filled. */
    method Settle(book: OB.OrderBook, maker: Slot, taker: Slot, qty: Quantity, ghost k: nat)
      requires Inv({taker}) && HoldsBook(book)
      requires k < |book.contents| && book.contents[k].id in book.orderLookup
      requires maker == book.orderLookup[book.contents[k].id].slot < orderPool.slots.Length
      requires orderPool.slots[maker] == book.contents[k]
      requires taker < orderPool.slots.Length && orderPool.slots[taker].filled <= orderPool.slots[taker].quantity
      requires 0 < qty <= orderPool.slots[taker].Left() && qty <= book.contents[k].Left()
      modifies this`owner, orderPool`freeIndices, orderPool.slots, book
      ensures Inv({taker}) && HoldsBook(book)
      ensures orderPool.slots[taker] == old(orderPool.slots[taker]).Fill(qty)
      ensures book.contents == AfterTrade(old(book.contents), k, qty)
      ensures |orderPool.freeIndices| + |book.contents| == old(|orderPool.freeIndices| + |book.contents|)
      ensures Lost(owner) == old(Lost(owner))
      ensures Books() == old(Books())[book.symbol := book.State()]
    {
      hide EngineInv, Lost, IndexOf, Get, Without, BookInv, HasId, Books, UniqueIds;
      ghost var contents, books := book.contents, Books();
      Reduce(book, maker, taker, qty, k);
      if orderPool.slots[maker].IsFilled() {
        BookOfEngine(book, {taker});
        RetireAt(contents, book.contents, k);
        assert books[book.symbol := book.State()] == Books();
        var p := Unlink(book, orderPool.slots[maker].id, {taker});
        assert {taker} + {maker} - {maker} == {taker};
        Release(maker, {taker} + {maker});
      }
    }

    /** One trade between the taker and the order it meets next. */
    method TradeWith(book: OB.OrderBook, maker: Slot, taker: Slot, ghost k: nat) returns (trade: Trade)
      requires Inv({taker}) && HoldsBook(book) && Open(book.contents)
      requires taker < orderPool.slots.Length && orderPool.slots[taker].filled <= orderPool.slots[taker].quantity
      requires CanTrade(book.contents, orderPool.slots[taker]) && k == Maker(book.contents, orderPool.slots[taker])
      requires book.contents[k].id in book.orderLookup
      requires maker == book.orderLookup[book.contents[k].id].slot < orderPool.slots.Length
      requires orderPool.slots[maker] == book.contents[k]
      modifies this`owner, this`tradeHistory, this`totalTrades, this`totalVolume
      modifies orderPool`freeIndices, orderPool.slots, book
      ensures Inv({taker}) && HoldsBook(book)
      ensures var contents, t := old(book.contents), old(orderPool.slots[taker]);
        var qty := TradedQty(contents, t);
        && trade == TradeBetween(t, contents[k], qty)
        && trade.price == contents[k].price && trade.quantity == qty
        && (if t.side == Buy
            then trade.buyOrderId == t.id && trade.buyUserId == t.userId
                 && trade.sellOrderId == contents[k].id && trade.sellUserId == contents[k].userId
            else trade.sellOrderId == t.id && trade.sellUserId == t.userId
                 && trade.buyOrderId == contents[k].id && trade.buyUserId == contents[k].userId)
        && orderPool.slots[taker] == t.Fill(qty)
        && book.contents == AfterTrade(contents, k, qty)
      ensures tradeHistory == old(tradeHistory) + [trade]
      ensures totalTrades == Add64(old(totalTrades), 1) && totalVolume == Add64(old(totalVolume), trade.quantity)
      ensures |orderPool.freeIndices| + |book.contents| == old(|orderPool.freeIndices| + |book.contents|)
      ensures Lost(owner) == old(Lost(owner))
      ensures Books() == old(Books())[book.symbol := book.State()]
    {
      hide EngineInv, Lost, First, AfterTrade, Books;
      var t, m := orderPool.slots[taker], orderPool.slots[maker];
      NoWrap(t, 0);
      NoWrap(m, 0);
      var qty := if m.RemainingQty() < t.RemainingQty() then m.RemainingQty() else t.RemainingQty();
      if t.side.Buy? {
        trade := CreateTrade(t, m, qty, m.price);
      } else {
        trade := CreateTrade(m, t, qty, m.price);
      }
      Settle(book, maker, taker, qty, k);
    }

    method MatchAgainstSellOrders(book: OB.OrderBook, taker: Slot) returns (trades: seq<Trade>)
      requires Inv({taker}) && HoldsBook(book) && Open(book.contents)
      requires taker < orderPool.slots.Length && orderPool.slots[taker].filled <= orderPool.slots[taker].quantity
      requires orderPool.slots[taker].side.Buy?
      modifies this`owner, this`tradeHistory, this`totalTrades, this`totalVolume
      modifies orderPool`freeIndices, orderPool.slots, book
      ensures Inv({taker}) && HoldsBook(book)
      ensures Swept(trades, orderPool.slots[taker], book.contents)
           == Sweep(old(book.contents), old(orderPool.slots[taker]))
      ensures old(orderPool.slots[taker]).kind != Market ==>
        forall i :: 0 <= i < |trades| ==> trades[i].price <= old(orderPool.slots[taker]).price
      ensures tradeHistory == old(tradeHistory) + trades
      ensures totalTrades == (old(totalTrades) + |trades|) % WRAP
      ensures totalVolume == (old(totalVolume) + SumQuantity(trades)) % WRAP
      ensures |orderPool.freeIndices| + |book.contents| == old(|orderPool.freeIndices| + |book.contents|)
      ensures Lost(owner) == old(Lost(owner))
      ensures Books() == old(Books())[book.symbol := book.State()]
    {
      hide Inv, OB.OrderBook.Valid, Lost, First, AfterTrade, Books, Sweep, SumQuantity;
      trades := [];
      ghost var goal := Sweep(book.contents, orderPool.slots[taker]);
      StartTally(goal, totalTrades, totalVolume);
      BooksUnchanged(book);
      assert tradeHistory + [] == tradeHistory;
      while orderPool.slots[taker].RemainingQty() > 0
        invariant Inv({taker}) && HoldsBook(book) && Open(book.contents)
        invariant orderPool.slots[taker] == old(orderPool.slots[taker]).(filled := orderPool.slots[taker].filled)
        invariant orderPool.slots[taker].filled <= orderPool.slots[taker].quantity
        invariant Tally(goal, trades, Sweep(book.contents, orderPool.slots[taker]),
                        old(totalTrades), totalTrades, old(totalVolume), totalVolume)
        invariant tradeHistory == old(tradeHistory) + trades
        invariant |orderPool.freeIndices| + |book.contents| == old(|orderPool.freeIndices| + |book.contents|)
        invariant Lost(owner) == old(Lost(owner))
        invariant Books() == old(Books())[book.symbol := book.State()]
        decreases orderPool.slots[taker].Left()
      {
        BookOfEngine(book, {taker});
        var best := book.GetBestAsk();
        if best.None? ||
           (orderPool.slots[best.value].price > orderPool.slots[taker].price && !orderPool.slots[taker].kind.Market?) {
          break;
        }
        ghost var contents, t := book.contents, orderPool.slots[taker];
        ghost var tt, tv := totalTrades, totalVolume;
        SweepUnfolds(contents, t);
        var trade := TradeWith(book, best.value, taker, Maker(contents, t));
        StepTally(goal, trades, Sweep(contents, t), trade, Sweep(book.contents, orderPool.slots[taker]),
                  old(totalTrades), tt, old(totalVolume), tv);
        trades := trades + [trade];
      }
      SweepStops(book.contents, orderPool.slots[taker]);
      SweepKeepsLimit(old(book.contents), old(orderPool.slots[taker]));
    }

    method MatchAgainstBuyOrders(book: OB.OrderBook, taker: Slot) returns (trades: seq<Trade>)
      requires Inv({taker}) && HoldsBook(book) && Open(book.contents)
      requires taker < orderPool.slots.Length && orderPool.slots[taker].filled <= orderPool.slots[taker].quantity
      requires orderPool.slots[taker].side.Sell?
      modifies this`owner, this`tradeHistory, this`totalTrades, this`totalVolume
      modifies orderPool`freeIndices, orderPool.slots, book
      ensures Inv({taker}) && HoldsBook(book)
      ensures Swept(trades, orderPool.slots[taker], book.contents)
           == Sweep(old(book.contents), old(orderPool.slots[taker]))
      ensures old(orderPool.slots[taker]).kind != Market ==>
        forall i :: 0 <= i < |trades| ==> trades[i].price >= old(orderPool.slots[taker]).price
      ensures tradeHistory == old(tradeHistory) + trades
      ensures totalTrades == (old(totalTrades) + |trades|) % WRAP
      ensures totalVolume == (old(totalVolume) + SumQuantity(trades)) % WRAP
      ensures |orderPool.freeIndices| + |book.contents| == old(|orderPool.freeIndices| + |book.contents|)
      ensures Lost(owner) == old(Lost(owner))
      ensures Books() == old(Books())[book.symbol := book.State()]
    {
      hide Inv, OB.OrderBook.Valid, Lost, First, AfterTrade, Books, Sweep, SumQuantity;
      trades := [];
      ghost var goal := Sweep(book.contents, orderPool.slots[taker]);
      StartTally(goal, totalTrades, totalVolume);
      BooksUnchanged(book);
      assert tradeHistory + [] == tradeHistory;
      while orderPool.slots[taker].RemainingQty() > 0
        invariant Inv({taker}) && HoldsBook(book) && Open(book.contents)
        invariant orderPool.slots[taker] == old(orderPool.slots[taker]).(filled := orderPool.slots[taker].filled)
        invariant orderPool.slots[taker].filled <= orderPool.slots[taker].quantity
        invariant Tally(goal, trades, Sweep(book.contents, orderPool.slots[taker]),
                        old(totalTrades), totalTrades, old(totalVolume), totalVolume)
        invariant tradeHistory == old(tradeHistory) + trades
        invariant |orderPool.freeIndices| + |book.contents| == old(|orderPool.freeIndices| + |book.contents|)
        invariant Lost(owner) == old(Lost(owner))
        invariant Books() == old(Books())[book.symbol := book.State()]
        decreases orderPool.slots[taker].Left()
      {
        BookOfEngine(book, {taker});
        var best := book.GetBestBid();
        if best.None? ||
           (orderPool.slots[best.value].price < orderPool.slots[taker].price && !orderPool.slots[taker].kind.Market?) {
          break;
        }
        ghost var contents, t := book.contents, orderPool.slots[taker];
        ghost var tt, tv := totalTrades, totalVolume;
        SweepUnfolds(contents, t);
        var trade := TradeWith(book, best.value, taker, Maker(contents, t));
        StepTally(goal, trades, Sweep(contents, t), trade, Sweep(book.contents, orderPool.slots[taker]),
                  old(totalTrades), tt, old(totalVolume), tv);
        trades := trades + [trade];
      }
      SweepStops(book.contents, orderPool.slots[taker]);
      SweepKeepsLimit(old(book.contents), old(orderPool.slots[taker]));
    }

    // -------------------------------------------------------------- the liquidity scan

    /** Subtract each reachable order from the needed quantity in unsigned arithmetic; accept on zero. */
    method CanFillCompletely(book: OB.OrderBook, o: Order) returns (ok: bool)
      requires book.Valid() && Open(book.contents)
      ensures ok <==> ScanAccepts(book.contents, o)
    {
      hide BookInv, Reach, Queue, Flatten, First, SumsTo;
      var levels := if o.side.Buy? then book.sellOrders else book.buyOrders;
      ghost var mem, queue := book.memory[..], ScanOrder(book.contents, o);
      ScanView(book.symbol, mem, book.State(), o);
      ghost var view := View(levels, mem);
      var needed := o.quantity;
      ghost var seen, rest := [], Flatten(view);
      StartScan(queue, o);
      assert view[0..] == view;
      for i := 0 to |levels|
        invariant ScanInv(queue, seen, rest, o, needed)
        invariant rest == Flatten(view[i..])
      {
        FlattenStep(view[i..]);
        assert view[i..][1..] == view[i + 1..];
        var price := levels[i].price;
        if (if o.side.Buy? then price > o.price else price < o.price) {
          ScanEnds(queue, seen, rest, o, needed);
          return false;
        }
        for j := 0 to |levels[i].items|
          invariant ScanInv(queue, seen, rest, o, needed)
          invariant rest == view[i].items[j..] + Flatten(view[i + 1..])
        {
          var x := book.memory[levels[i].items[j].slot];
          assert x == view[i].items[j];
          ghost var rest' := view[i].items[j + 1..] + Flatten(view[i + 1..]);
          HeadOfRest(view[i].items, j, Flatten(view[i + 1..]));
          ScanStep(queue, seen, x, rest', o, needed);
          needed := Sub64(needed, x.RemainingQty());
          if needed <= 0 {
            return true;
          }
          seen, rest := seen + [x], rest';
        }
      }
      assert Flatten(view[|levels|..]) == [] by {
        FlattenNothing(view[|levels|..]);
      }
      ScanEnds(queue, seen, rest, o, needed);
      return false;
    }

    // -------------------------------------------------------------- the engine's interface

    method GetOrCreateOrderBook(symbol: Symbol, ghost hand: set<Slot>) returns (book: OB.OrderBook)
      requires Inv(hand)
      modifies this`orderBooks
      ensures Inv(hand) && HoldsBook(book) && book.symbol == symbol
      ensures symbol in old(orderBooks) ==> orderBooks == old(orderBooks)
      ensures symbol !in old(orderBooks) ==>
        fresh(book) && orderBooks == old(orderBooks)[symbol := book] && book.State() == EMPTY_BOOK
      ensures Books() == old(Books())[symbol := book.State()]
      ensures book.contents == if symbol in old(Books()) then old(Books())[symbol].contents else []
    {
      hide Inv, Books, BooksAtHome, EngineInv;
      ghost var books := Books();
      InvParts(hand);
      BooksHaveKeys();
      if symbol in orderBooks {
        BooksUnchanged(orderBooks[symbol]);
        BookIsEntry(orderBooks[symbol]);
        return orderBooks[symbol];
      }
      OpenBook(orderPool.slots[..], orderPool.freeIndices, owner, books, hand, symbol);
      book := new OB.OrderBook(symbol, orderPool.slots);
      orderBooks := orderBooks[symbol := book];
      OnlyBookAdded(book);
      InvWhole(hand);
    }

    /** The symbol's book, or nothing exactly when the engine never had one. */
    method GetOrderBook(symbol: Symbol) returns (book: Option<OB.OrderBook>)
      requires Valid()
      ensures book.Some? <==> symbol in Abs().books
      ensures book.Some? ==>
        && symbol in orderBooks && book.value == orderBooks[symbol]
        && book.value.Valid() && book.value.memory == orderPool.slots
        && book.value.contents == Abs().books[symbol]
    {
      hide EngineInv, OB.OrderBook.Valid, Lost, OpenBooks;
      if symbol in orderBooks {
        BookOfEngine(orderBooks[symbol], {});
        return Some(orderBooks[symbol]);
      }
      return None;
    }

    /** Pop a slot and copy the incoming order into it. */
    method Admit(incoming: Order) returns (p: Option<Slot>)
      requires Inv({})
      modifies this`owner, orderPool`freeIndices, orderPool.slots
      ensures p.None? <==> old(orderPool.freeIndices) == []
      ensures p.None? ==> Inv({}) && owner == old(owner) && orderPool.freeIndices == []
      ensures p.Some? ==>
        && p.value < orderPool.slots.Length && Inv({p.value})
        && orderPool.slots[p.value] == incoming
        && |orderPool.freeIndices| == old(|orderPool.freeIndices|) - 1
      ensures Lost(owner) == old(Lost(owner))
    {
      hide EngineInv, Lost;
      ghost var mem, books := orderPool.slots[..], Books();
      p := orderPool.Allocate();
      if p.Some? {
        HandIsOwned(mem, orderPool.freeIndices + [p.value], owner, books, {});
        TakeSlot(mem, orderPool.freeIndices, owner, books, p.value, incoming);
        owner := owner[p.value := InHand];
        orderPool.slots[p.value] := incoming;
        assert orderPool.slots[..] == mem[p.value := incoming];
      }
    }

    /** Put what is left of the order in hand into its book. */
    method Rest(book: OB.OrderBook, p: Slot)
      requires Inv({p}) && HoldsBook(book) && p < orderPool.slots.Length
      requires orderPool.slots[p].symbol == book.symbol
      modifies this`owner, book
      ensures HoldsBook(book)
      ensures !HasId(old(book.contents), orderPool.slots[p].id) ==> Inv({})
      ensures book.contents == old(book.contents) + [orderPool.slots[p]]
      ensures Lost(owner) == old(Lost(owner))
      ensures Books() == old(Books())[book.symbol := book.State()]
    {
      hide Inv, Books, BooksAtHome, EngineInv, BookInv, Lost, HasId, Added;
      ghost var s, mem, free, books := book.symbol, orderPool.slots[..], orderPool.freeIndices, Books();
      InvParts({p});
      BookOfEngine(book, {p});
      BookIsEntry(book);
      ToRest(mem, free, owner, books, {p}, p);
      assert {p} - {p} == {};
      book.AddOrder(p);
      OnlyBookChanged(book);
      owner := owner[p := RestsIn(s, mem[p].id)];
      if !HasId(books[s].contents, mem[p].id) {
        InvWhole({});
      }
    }

    /** The call ends and nobody returns the slot. */
    ghost method Forget(p: Slot)
      requires Inv({p})
      modifies this`owner
      ensures Inv({})
      ensures |Lost(owner)| == old(|Lost(owner)|) + 1
    {
      hide EngineInv, BookInv, Lost;
      HandIsOwned(orderPool.slots[..], orderPool.freeIndices, owner, Books(), {p});
      Lose(orderPool.slots[..], orderPool.freeIndices, owner, Books(), {p}, p);
      assert {p} - {p} == {};
      owner := owner[p := Owner.Unreturned];
    }

    method CancelOrder(id: OrderID, symbol: Symbol, side: int) returns (r: Option<Order>)
      requires Valid()
      modifies this, orderPool`freeIndices, orderBooks.Values
      ensures Valid() && fresh(orderBooks.Values - old(orderBooks.Values))
      ensures AllOpen(old(Abs()))
      ensures (Abs(), r) == ReferenceEngine.CancelOrder(old(Abs()), id, symbol)
    {
      hide Inv, Books, ContentsOf, Get, Without, Lost, OB.OrderBook.Valid, ReferenceEngine.CancelOrder;
      ghost var m, books := Abs(), Books();
      OpenContents(books);
      var book := GetOrCreateOrderBook(symbol, {});
      ghost var contents, st := book.contents, book.State();
      var p := Unlink(book, id, {});
      CancelRefines(m, books, symbol, contents, book.State(), id);
      assert books[symbol := st][symbol := book.State()] == books[symbol := book.State()];
      if p.Some? {
        var cancelledData := orderPool.slots[p.value];
        assert {} + {p.value} - {p.value} == {};
        Release(p.value, {} + {p.value});
        return Some(cancelledData);
      }
      return None;
    }

    /** After matching: return the slot of a completed or immediate order, rest a limited remainder, and
        let go of the remainder of a market order. */
    method Dispose(book: OB.OrderBook, order: Slot)
      requires Inv({order}) && HoldsBook(book)
      requires order < orderPool.slots.Length && orderPool.slots[order].symbol == book.symbol
      modifies this`owner, this`totalOrders, orderPool`freeIndices, book
      ensures HoldsBook(book)
      ensures (Disposal(orderPool.slots[order]).Rested? ==> !HasId(old(book.contents), orderPool.slots[order].id))
              ==> Inv({})
      ensures var fate := Disposal(orderPool.slots[order]);
        && book.contents == old(book.contents) + (if fate.Rested? then [orderPool.slots[order]] else [])
        && totalOrders == (if fate.Rested? then Add64(old(totalOrders), 1) else old(totalOrders))
        && |orderPool.freeIndices| == old(|orderPool.freeIndices|) + (if fate.ReturnsSlot() then 1 else 0)
        && |Lost(owner)| == old(|Lost(owner)|) + (if fate.LosesSlot() then 1 else 0)
      ensures Books() == old(Books())[book.symbol := book.State()]
    {
      hide Inv, Books, Lost, HasId;
      BooksUnchanged(book);
      assert {order} - {order} == {};
      if !orderPool.slots[order].IsFilled() {
        if orderPool.slots[order].kind.ImmediateOrCancel? {
          Release(order, {order});
          return;
        }
        if !orderPool.slots[order].kind.Market? {
          Rest(book, order);
          totalOrders := Add64(totalOrders, 1);
        } else {
          Forget(order);
        }
      } else {
        Release(order, {order});
      }
    }

    /** Match an order that the liquidity scan let through, and dispose of what is left of it. */
    method MatchAndDispose(book: OB.OrderBook, order: Slot) returns (trades: seq<Trade>)
      requires Inv({order}) && HoldsBook(book) && Open(book.contents)
      requires order < orderPool.slots.Length && orderPool.slots[order].symbol == book.symbol
      requires orderPool.slots[order].filled == 0 && orderPool.slots[order].quantity > 0
      requires orderPool.slots[order].kind.FillOrKill? ==> ScanAccepts(book.contents, orderPool.slots[order])
      modifies this`owner, this`tradeHistory, this`totalOrders, this`totalTrades, this`totalVolume
      modifies orderPool`freeIndices, orderPool.slots, book
      ensures HoldsBook(book)
      ensures !RestsTwice(old(book.contents), old(orderPool.slots[order])) ==> Inv({})
      ensures var h := Handle(old(book.contents), old(orderPool.slots[order]));
        && trades == h.trades && book.contents == h.book
        && tradeHistory == old(tradeHistory) + h.trades
        && totalOrders == (if h.fate.Rested? then Add64(old(totalOrders), 1) else old(totalOrders))
        && totalTrades == (old(totalTrades) + |h.trades|) % WRAP
        && totalVolume == (old(totalVolume) + SumQuantity(h.trades)) % WRAP
        && |orderPool.freeIndices| == old(|orderPool.freeIndices|) + h.removed + (if h.fate.ReturnsSlot() then 1 else 0)
        && |Lost(owner)| == old(|Lost(owner)|) + (if h.fate.LosesSlot() then 1 else 0)
      ensures Books() == old(Books())[book.symbol := book.State()]
    {
      hide Inv, Books, Lost, OB.OrderBook.Valid, HasId, UniqueIds, Sweep, ScanAccepts, Handle, Add64, SumQuantity;
      ghost var contents, incoming := book.contents, orderPool.slots[order];
      BookOfEngine(book, {order});
      HandledBySweep(contents, incoming);
      if orderPool.slots[order].side.Buy? {
        trades := MatchAgainstSellOrders(book, order);
      } else {
        trades := MatchAgainstBuyOrders(book, order);
      }
      Dispose(book, order);
    }

    /** Scan for liquidity when the order is fill-or-kill; kill it, or match it. */
    method MatchOrKill(book: OB.OrderBook, order: Slot) returns (trades: seq<Trade>)
      requires Inv({order}) && HoldsBook(book) && Open(book.contents)
      requires order < orderPool.slots.Length && orderPool.slots[order].symbol == book.symbol
      requires orderPool.slots[order].filled == 0 && orderPool.slots[order].quantity > 0
      modifies this`owner, this`tradeHistory, this`totalOrders, this`totalTrades, this`totalVolume
      modifies orderPool`freeIndices, orderPool.slots, book
      ensures HoldsBook(book)
      ensures !RestsTwice(old(book.contents), old(orderPool.slots[order])) ==> Inv({})
      ensures var h := Handle(old(book.contents), old(orderPool.slots[order]));
        && trades == h.trades && book.contents == h.book
        && tradeHistory == old(tradeHistory) + h.trades
        && totalOrders == (if h.fate.Rested? then Add64(old(totalOrders), 1) else old(totalOrders))
        && totalTrades == (old(totalTrades) + |h.trades|) % WRAP
        && totalVolume == (old(totalVolume) + SumQuantity(h.trades)) % WRAP
        && |orderPool.freeIndices| == old(|orderPool.freeIndices|) + h.removed + (if h.fate.ReturnsSlot() then 1 else 0)
        && |Lost(owner)| == old(|Lost(owner)|) + (if h.fate.LosesSlot() then 1 else 0)
      ensures Books() == old(Books())[book.symbol := book.State()]
    {
      hide Inv, Books, Lost, OB.OrderBook.Valid, HasId, UniqueIds, Sweep, ScanAccepts, Handle, Add64;
      BookOfEngine(book, {order});
      if orderPool.slots[order].kind.FillOrKill? {
        var enough := CanFillCompletely(book, orderPool.slots[order]);
        if !enough {
          HandledBySweep(book.contents, orderPool.slots[order]);
          BooksUnchanged(book);
          assert SumQuantity([]) == 0 && tradeHistory + [] == tradeHistory;
          Forget(order);
          return [];
        }
      }
      trades := MatchAndDispose(book, order);
    }

    /** A valid order in its slot: find its book and run it there.  m is the engine before the slot was taken. */
    method ProcessAdmitted(order: Slot, ghost m: Venue) returns (trades: seq<Trade>)
      requires Inv({order}) && OpenBooks(Books()) && AllOpen(m)
      requires m == Abs().(free := Abs().free + 1)
      requires order < orderPool.slots.Length
      requires IsValidOrder(orderPool.slots[order]) && orderPool.slots[order].filled == 0
      modifies this, orderPool`freeIndices, orderPool.slots, orderBooks.Values
      ensures fresh(orderBooks.Values - old(orderBooks.Values))
      ensures !Clashes(m, old(orderPool.slots[order])) ==> Valid()
      ensures (Abs(), trades) == NewOrder(m, old(orderPool.slots[order]))
    {
      hide Inv, Books, ContentsOf, Lost, OB.OrderBook.Valid, NewOrder, Handle, HasId, AllOpen, OpenBooks, Open,
           IsValidOrder, SumQuantity, BookOf, ScanAccepts, Sweep;
      ghost var incoming, books := orderPool.slots[order], Books();
      BookOfContents(m, books, incoming.symbol);
      var book := GetOrCreateOrderBook(orderPool.slots[order].symbol, {order});
      ghost var contents, st := book.contents, book.State();
      OpenContentsOf(books, incoming.symbol, contents);
      ValidIsPositive(incoming);
      trades := MatchOrKill(book, order);
      AcceptedRefines(m, books, incoming, contents, book.State());
      assert books[incoming.symbol := st][incoming.symbol := book.State()] == books[incoming.symbol := book.State()];
    }

    /** Same trades and same new state as the reference engine, whatever the order and its identifier.  The
        engine stays consistent if and only if the order does not come to rest under an identifier that
        rests in its book already. */
    method ProcessNewOrder(incoming: Order) returns (trades: seq<Trade>)
      requires Valid() && incoming.filled == 0
      modifies this, orderPool`freeIndices, orderPool.slots, orderBooks.Values
      ensures fresh(orderBooks.Values - old(orderBooks.Values))
      ensures AllOpen(old(Abs()))
      ensures Valid() <==> !Clashes(old(Abs()), incoming)
      ensures (Abs(), trades) == NewOrder(old(Abs()), incoming)
      ensures forall k :: 0 <= k < |trades| ==>
        && (incoming.kind == Market || (if incoming.side == Buy then trades[k].price <= incoming.price
                                        else trades[k].price >= incoming.price))
        && (if incoming.side == Buy
            then trades[k].buyOrderId == incoming.id && trades[k].buyUserId == incoming.userId
            else trades[k].sellOrderId == incoming.id && trades[k].sellUserId == incoming.userId)
    {
      hide Inv, Books, ContentsOf, Lost, NewOrder, Clashes, AllOpen, OpenBooks, IsValidOrder, BookOf, UniqueIds;
      ghost var m := Abs();
      BooksAreUnique();
      OpenContents(Books());
      var order := Admit(incoming);
      if order.None? {
        RefusedRefines(m, incoming);
        return [];
      }
      if !ValidateOrder(orderPool.slots[order.value]) {
        assert {order.value} - {order.value} == {};
        Release(order.value, {order.value});
        RefusedRefines(m, incoming);
        return [];
      }
      trades := ProcessAdmitted(order.value, m);
      forall k | 0 <= k < |trades|
        ensures incoming.kind == Market || (if incoming.side == Buy then trades[k].price <= incoming.price
                                            else trades[k].price >= incoming.price)
        ensures if incoming.side == Buy
                then trades[k].buyOrderId == incoming.id && trades[k].buyUserId == incoming.userId
                else trades[k].sellOrderId == incoming.id && trades[k].sellUserId == incoming.userId
      {
        TradeTerms(m, incoming, k);
      }
      if Clashes(m, incoming) {
        UniqueIffNoClash(m, incoming);
        if Valid() {
          BooksAreUnique();
        }
      }
    }

    /** A consistent engine holds no identifier twice in a book. */
    lemma BooksAreUnique()
      requires Valid()
      ensures AllUnique(Abs())
    {
      hide BookInv, UniqueIds, Lost;
      forall s ensures UniqueIds(BookOf(Abs(), s)) {
        if s in Books() {
          EngineFactsOf(orderPool.slots[..], orderPool.freeIndices, owner, Books(), {}, s);
          IndexIsIds(s, orderPool.slots[..], Books()[s], 0);
        } else {
          NoOrdersUnique();
        }
      }
    }

    lemma BookOfEngine(book: OB.OrderBook, hand: set<Slot>)
      requires Inv(hand) && HoldsBook(book)
      ensures book.Valid() && UniqueIds(book.contents) && book.memory == orderPool.slots
      ensures |owner| == orderPool.slots.Length && forall p :: p in hand ==> p < |owner|
    {
      hide BookInv, EngineInv;
      HandIsOwned(orderPool.slots[..], orderPool.freeIndices, owner, Books(), hand);
      EngineFactsOf(orderPool.slots[..], orderPool.freeIndices, owner, Books(), hand, book.symbol);
      IndexIsIds(book.symbol, orderPool.slots[..], book.State(), 0);
    }

    lemma BooksHaveKeys()
      requires BooksAtHome()
      ensures Books().Keys == orderBooks.Keys
      ensures forall s :: s in orderBooks ==> HoldsBook(orderBooks[s]) && orderBooks[s].symbol == s
    {
    }

    lemma BookIsEntry(book: OB.OrderBook)
      requires HoldsBook(book)
      ensures book.symbol in Books() && Books()[book.symbol] == book.State()
    {
    }

    lemma BooksUnchanged(book: OB.OrderBook)
      requires HoldsBook(book)
      ensures Books() == Books()[book.symbol := book.State()]
    {
    }
  }
}
