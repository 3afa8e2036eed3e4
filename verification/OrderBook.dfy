/** The order book of one symbol (src/order_book.cpp). */
module OrderBook {
  import opened Types
  import opened NaiveBook
  import opened SweepLaws
  import opened Ladder
  import opened BookModel

  datatype L1Quote = L1Quote(bid: Price, bidQty: Quantity, ask: Price, askQty: Quantity)

  datatype L2Quote = L2Quote(bids: seq<(Price, Quantity)>, asks: seq<(Price, Quantity)>)

  /** The depth of one side: each entry carries the whole quantity resting at its price (in machine
      arithmetic), prices strictly worsen, and only prices worse than all listed ones are left out. */
  predicate IsDepth(quote: seq<(Price, Quantity)>, book: Book, side: Side, depth: nat) {
    && |quote| <= depth
    && (forall i :: 0 <= i < |quote| ==>
          At(book, side, quote[i].0) != [] && quote[i].1 == Total(At(book, side, quote[i].0)) % WRAP)
    && (forall i, j :: 0 <= i < j < |quote| ==> Before(side.Sell?, quote[i].0, quote[j].0))
    && forall o :: o in book && o.side == side ==>
         || (exists i :: 0 <= i < |quote| && quote[i].0 == o.price)
         || (|quote| == depth && forall i :: 0 <= i < |quote| ==> Before(side.Sell?, quote[i].0, o.price))
  }

  class OrderBook {
    const symbol: Symbol
    /** The memory that order pointers point into. */
    const memory: array<Order>

    var buyOrders: Ladder<Node>
    var sellOrders: Ladder<Node>
    var orderLookup: map<OrderID, OrderInfo>
    var nextHandle: nat

    /** The naive book this book stands for. */
    ghost var contents: Book

    ghost function State(): BookState
      reads this
    {
      BookState(buyOrders, sellOrders, orderLookup, nextHandle, contents)
    }

    ghost predicate Valid()
      reads this, memory
    {
      BookInv(symbol, memory[..], State())
    }

    constructor (symbol: Symbol, memory: array<Order>)
      ensures this.symbol == symbol && this.memory == memory
      ensures Valid() && State() == EMPTY_BOOK
    {
      this.symbol := symbol;
      this.memory := memory;
      buyOrders, sellOrders, orderLookup, nextHandle := [], [], map[], 0;
      contents := [];
    }

    /** Put an order at the back of its price level and index it.  The book stays consistent exactly when
        the order is one of its symbol and its identifier does not rest yet; the index entry is overwritten
        in any case. */
    method AddOrder(p: Slot)
      requires Valid() && p < memory.Length
      modifies this
      ensures Valid() <==> memory[p].symbol == symbol && !HasId(old(contents), memory[p].id)
      ensures State() == Added(memory[..], old(State()), p)
      ensures contents == old(contents) + [memory[p]]
    {
      hide BookInv, HasId, Append;
      AddedInv(symbol, memory[..], State(), p);
      var o := memory[p];
      var node := Node(nextHandle, p);
      if o.side.Buy? {
        buyOrders := Append(buyOrders, o.price, node);
      } else {
        sellOrders := Append(sellOrders, o.price, node);
      }
      orderLookup := orderLookup[o.id := OrderInfo(p, nextHandle)];
      nextHandle := nextHandle + 1;
      contents := contents + [o];
    }

    /** Take an order out of its level, wherever it stands in it, and out of the index. */
    method CancelOrder(id: OrderID) returns (r: Option<Slot>)
      requires Valid()
      modifies this
      ensures Valid()
      ensures r.Some? <==> HasId(old(contents), id)
      ensures r.None? ==> State() == old(State())
      ensures r.Some? ==>
        && id in old(orderLookup) && r.value == old(orderLookup)[id].slot < memory.Length
        && Get(old(contents), id) == Some(memory[r.value])
        && State() == Erased(memory[..], old(State()), id)
        && contents == Without(old(contents), id)
    {
      hide BookInv, Place, PositionOf, IndexOf, Rank, HasId, Erase, Without;
      ghost var mem, was := memory[..], State();
      IndexIsIds(symbol, mem, was, id);
      if id !in orderLookup {
        return None;
      }
      IteratorIsRight(symbol, mem, was, id);
      ErasedInv(symbol, mem, was, id);
      var info := orderLookup[id];
      var o := memory[info.slot];
      if o.side.Buy? {
        if !HasPrice(buyOrders, o.price) {
          return None;
        }
        var i := Place(buyOrders, o.price);
        var j := PositionOf(buyOrders[i].items, info.listIt);
        buyOrders := Erase(buyOrders, i, j);
      } else {
        if !HasPrice(sellOrders, o.price) {
          return None;
        }
        var i := Place(sellOrders, o.price);
        var j := PositionOf(sellOrders[i].items, info.listIt);
        sellOrders := Erase(sellOrders, i, j);
      }
      orderLookup := orderLookup - {id};
      contents := Without(contents, id);
      return Some(info.slot);
    }

    method GetOrderById(id: OrderID) returns (r: Option<Slot>)
      requires Valid()
      ensures r.Some? <==> HasId(contents, id)
      ensures r.None? ==> Get(contents, id) == None
      ensures r.Some? ==> r.value < memory.Length && Get(contents, id) == Some(memory[r.value])
    {
      hide BookInv, Place, PositionOf, IndexOf, Rank, HasId, Without;
      IndexIsIds(symbol, memory[..], State(), id);
      if id !in orderLookup {
        WithoutNone(contents, id);
        return None;
      }
      IteratorIsRight(symbol, memory[..], State(), id);
      return Some(orderLookup[id].slot);
    }

    /** The pointer returned is to the order a linear scan of the naive book would choose. */
    ghost predicate PointsAtFirst(r: Option<Slot>, side: Side, up: bool)
      reads this, memory
    {
      var k := First(contents, side, up);
      && (r.None? <==> k == -1)
      && (r.Some? ==>
            && r.value < memory.Length && memory[r.value] == contents[k]
            && contents[k].id in orderLookup && orderLookup[contents[k].id].slot == r.value)
    }

    method GetBestBid() returns (r: Option<Slot>)
      requires Valid()
      ensures PointsAtFirst(r, Buy, false)
    {
      hide BookInv, First;
      BestIsFirst(symbol, memory[..], State(), Buy, false);
      if buyOrders == [] {
        return None;
      }
      return Some(buyOrders[|buyOrders| - 1].items[0].slot);
    }

    method GetBestAsk() returns (r: Option<Slot>)
      requires Valid()
      ensures PointsAtFirst(r, Sell, true)
    {
      hide BookInv, First;
      BestIsFirst(symbol, memory[..], State(), Sell, true);
      if sellOrders == [] {
        return None;
      }
      return Some(sellOrders[0].items[0].slot);
    }

    // -------------------------------------------------------------- market data

    method GetL1Quote() returns (q: L1Quote)
      requires Valid() && Open(contents)
      ensures var k := First(contents, Buy, false);
        if k == -1 then q.bid == 0.0 && q.bidQty == 0 else q.bid == contents[k].price && q.bidQty == contents[k].Left()
      ensures var k := First(contents, Sell, true);
        if k == -1 then q.ask == 0.0 && q.askQty == 0 else q.ask == contents[k].price && q.askQty == contents[k].Left()
    {
      hide BookInv, First;
      var bestBid := GetBestBid();
      var bestAsk := GetBestAsk();
      q := L1Quote(
        if bestBid.Some? then memory[bestBid.value].price else 0.0,
        if bestBid.Some? then memory[bestBid.value].RemainingQty() else 0,
        if bestAsk.Some? then memory[bestAsk.value].price else 0.0,
        if bestAsk.Some? then memory[bestAsk.value].RemainingQty() else 0);
    }

    method GetL2Quote(depth: nat) returns (q: L2Quote)
      requires Valid() && Open(contents)
      ensures IsDepth(q.bids, contents, Buy, depth)
      ensures IsDepth(q.asks, contents, Sell, depth)
    {
      hide BookInv, IsDepth, InPool, View, Total, Couples, Open;
      ghost var mem, sn := memory[..], State();
      LadderOf(symbol, mem, sn, Buy);
      LadderOf(symbol, mem, sn, Sell);
      var bids, asks := [], [];
      var count := 0;
      while count < |buyOrders| && count < depth
        invariant count <= |buyOrders| && count <= depth && |bids| == count
        invariant forall i :: 0 <= i < count ==> bids[i] == Entry(View(buyOrders, mem), |buyOrders| - 1 - i)
      {
        var level := buyOrders[|buyOrders| - 1 - count];
        var totalQty := LevelQuantity(level.items, View(buyOrders, mem)[|buyOrders| - 1 - count].items);
        bids := bids + [(level.price, totalQty)];
        count := count + 1;
      }
      DepthOfBids(bids, View(buyOrders, mem), contents, depth);
      count := 0;
      while count < |sellOrders| && count < depth
        invariant count <= |sellOrders| && count <= depth && |asks| == count
        invariant forall i :: 0 <= i < count ==> asks[i] == Entry(View(sellOrders, mem), i)
      {
        var level := sellOrders[count];
        var totalQty := LevelQuantity(level.items, View(sellOrders, mem)[count].items);
        asks := asks + [(level.price, totalQty)];
        count := count + 1;
      }
      DepthOfAsks(asks, View(sellOrders, mem), contents, depth);
      q := L2Quote(bids, asks);
    }

    /** The inner loop of the depth query: add up what remains of the orders at one level. */
    method LevelQuantity(nodes: seq<Node>, ghost orders: seq<Order>) returns (totalQty: Quantity)
      requires |orders| == |nodes| && Open(orders)
      requires forall j :: 0 <= j < |nodes| ==> nodes[j].slot < memory.Length && memory[nodes[j].slot] == orders[j]
      ensures totalQty == Total(orders) % WRAP
    {
      totalQty := 0;
      for j := 0 to |nodes|
        invariant totalQty == Total(orders[..j]) % WRAP
      {
        var o := memory[nodes[j].slot];
        assert orders[..j + 1] == orders[..j] + [o];
        TotalConcat(orders[..j], [o]);
        assert [o][1..] == [] && Total([o]) == o.Left();
        TotalNotNegative(orders[..j]);
        ModAdd(Total(orders[..j]), o.Left());
        totalQty := Add64(totalQty, o.RemainingQty());
      }
      assert orders[..|nodes|] == orders;
    }

    // -------------------------------------------------------------- counts

    method CountOrders(levels: Ladder<Node>) returns (total: nat)
      ensures total == |Flatten(levels)|
    {
      total := 0;
      for i := 0 to |levels|
        invariant total == |Flatten(levels[..i])|
      {
        FlattenSnoc(levels, i);
        total := total + |levels[i].items|;
      }
      assert levels[..|levels|] == levels;
    }

    method GetBuyOrders() returns (total: nat)
      requires Valid()
      ensures total == |OnSide(contents, Buy)|
    {
      LevelsCountSide(symbol, memory[..], State(), Buy);
      total := CountOrders(buyOrders);
    }

    method GetSellOrders() returns (total: nat)
      requires Valid()
      ensures total == |OnSide(contents, Sell)|
    {
      LevelsCountSide(symbol, memory[..], State(), Sell);
      total := CountOrders(sellOrders);
    }

    method GetTotalOrders() returns (total: nat)
      requires Valid()
      ensures total == |contents| == |OnSide(contents, Buy)| + |OnSide(contents, Sell)|
    {
      IndexCountsAll(symbol, memory[..], State());
      return |orderLookup|;
    }
  }

  // ---------------------------------------------------------------- depth

  lemma {:induction false} TotalNotNegative(orders: Book)
    requires Open(orders)
    ensures Total(orders) >= 0
  {
    TotalOpen(orders);
  }

  function Entry(v: Ladder<Order>, i: nat): (Price, Quantity)
    requires i < |v|
  {
    (v[i].price, Total(v[i].items) % WRAP)
  }

  lemma {:induction false} LadderOf(symbol: Symbol, mem: seq<Order>, sn: BookState, side: Side)
    requires BookInv(symbol, mem, sn) && Open(sn.contents)
    ensures var l := sn.Levels(side);
      && InPool(l, |mem|) && Couples(View(l, mem), sn.contents, side)
      && (forall i :: 0 <= i < |l| ==> Open(View(l, mem)[i].items))
      && forall i, j :: 0 <= i < |l| && 0 <= j < |l[i].items| ==>
           l[i].items[j].slot < |mem| && mem[l[i].items[j].slot] == View(l, mem)[i].items[j]
  {
    hide Place;
    var l := sn.Levels(side);
    var v := View(l, mem);
    forall i, j | 0 <= i < |l| && 0 <= j < |v[i].items| ensures v[i].items[j].IsOpen() {
      AtMembers(sn.contents, side, v[i].price, v[i].items[j]);
    }
  }

  lemma {:induction false} DepthOfAsks(asks: seq<(Price, Quantity)>, v: Ladder<Order>, book: Book, depth: nat)
    requires Couples(v, book, Sell) && |asks| == Min(|v|, depth)
    requires forall i :: 0 <= i < |asks| ==> asks[i] == Entry(v, i)
    ensures IsDepth(asks, book, Sell, depth)
  {
    hide Place, Filter, Total;
    forall o | o in book && o.side == Sell
      ensures (exists i :: 0 <= i < |asks| && asks[i].0 == o.price)
           || (|asks| == depth && forall i :: 0 <= i < |asks| ==> Before(true, asks[i].0, o.price))
    {
      var k :| 0 <= k < |book| && book[k] == o;
      var p := Place(v, o.price);
      assert v[p].price == o.price;
      if p < |asks| {
        assert asks[p].0 == o.price;
      }
    }
  }

  lemma {:induction false} DepthOfBids(bids: seq<(Price, Quantity)>, v: Ladder<Order>, book: Book, depth: nat)
    requires Couples(v, book, Buy) && |bids| == Min(|v|, depth)
    requires forall i :: 0 <= i < |bids| ==> bids[i] == Entry(v, |v| - 1 - i)
    ensures IsDepth(bids, book, Buy, depth)
  {
    hide Place, Filter, Total;
    forall o | o in book && o.side == Buy
      ensures (exists i :: 0 <= i < |bids| && bids[i].0 == o.price)
           || (|bids| == depth && forall i :: 0 <= i < |bids| ==> Before(false, bids[i].0, o.price))
    {
      var k :| 0 <= k < |book| && book[k] == o;
      var p := Place(v, o.price);
      assert v[p].price == o.price;
      if |v| - 1 - p < |bids| {
        assert bids[|v| - 1 - p].0 == o.price;
      }
    }
  }

  /** The first entry of the depth is the best price, and it covers the best order unless it wrapped. */
  lemma {:induction false} DepthStartsAtBest(quote: seq<(Price, Quantity)>, book: Book, side: Side, depth: nat)
    requires IsDepth(quote, book, side, depth) && depth > 0 && Open(book)
    ensures var k := First(book, side, side.Sell?);
      && (quote == [] <==> k == -1)
      && (quote != [] ==> quote[0].0 == book[k].price)
      && (quote != [] && Total(At(book, side, quote[0].0)) < WRAP ==> quote[0].1 >= book[k].Left())
  {
    hide First, Filter, Total;
    var k := First(book, side, side.Sell?);
    if quote != [] {
      var level := At(book, side, quote[0].0);
      AtMembers(book, side, quote[0].0, level[0]);
      assert level[0] in book;
    }
    if k >= 0 {
      assert book[k] in book;
      if quote != [] {
        assert quote[0].0 == book[k].price;
        LevelCovers(book, k);
      }
    }
  }

  lemma {:induction false} LevelCovers(book: Book, k: nat)
    requires Open(book) && k < |book|
    ensures 0 <= book[k].Left() <= Total(At(book, book[k].side, book[k].price))
  {
    var f := IsAt(book[k].side, book[k].price);
    FilterAround(book, k, book[k], f);
    var pre, post := Filter(book[..k], f), Filter(book[k + 1..], f);
    TotalConcat(pre + [book[k]], post);
    TotalConcat(pre, [book[k]]);
    EligibleNonNegative(book[..k], f);
    EligibleNonNegative(book[k + 1..], f);
    assert [book[k]][1..] == [];
  }

  // ---------------------------------------------------------------- counting

  lemma {:induction false} FlattenSnoc<T>(l: Ladder<T>, i: nat)
    requires i < |l|
    ensures |Flatten(l[..i + 1])| == |Flatten(l[..i])| + |l[i].items|
  {
    assert l[..i + 1] == l[..i] + [l[i]];
    FlattenConcat(l[..i], [l[i]]);
    assert [l[i]][1..] == [];
    assert Flatten([l[i]]) == l[i].items + [];
  }

  lemma {:induction false} SameShape(a: Ladder<Node>, b: Ladder<Order>)
    requires |a| == |b| && forall i :: 0 <= i < |a| ==> |a[i].items| == |b[i].items|
    ensures |Flatten(a)| == |Flatten(b)|
  {
    if a != [] {
      SameShape(a[1..], b[1..]);
    }
  }

  lemma {:induction false} QueueSize(book: Book, side: Side, up: bool)
    ensures |Queue(book, side, up)| == |OnSide(book, side)|
    decreases |book|
  {
    var k := First(book, side, up);
    if k == -1 {
      FilterNone(book, IsOnSide(side));
    } else {
      hide First, Filter;
      FilterAround(book, k, book[k], IsOnSide(side));
      QueueSize(Drop(book, k), side, up);
    }
  }

  lemma {:induction false} LevelsCountSide(symbol: Symbol, mem: seq<Order>, sn: BookState, side: Side)
    requires BookInv(symbol, mem, sn)
    ensures |Flatten(sn.Levels(side))| == |OnSide(sn.contents, side)|
  {
    hide Place, Flatten, Queue, First;
    var l := sn.Levels(side);
    SameShape(l, View(l, mem));
    WalkIsQueue(View(l, mem), sn.contents, side);
    QueueSize(sn.contents, side, true);
  }

  function Ids(book: Book): set<OrderID> {
    set o | o in book :: o.id
  }

  lemma {:induction false} UniqueIdsCount(book: Book)
    requires UniqueIds(book)
    ensures |Ids(book)| == |book|
  {
    if book != [] {
      UniqueIdsCount(book[1..]);
      assert book == [book[0]] + book[1..];
      assert Ids(book) == {book[0].id} + Ids(book[1..]);
      assert book[0].id !in Ids(book[1..]);
    }
  }

  lemma {:induction false} SidesCoverBook(book: Book)
    ensures |book| == |OnSide(book, Buy)| + |OnSide(book, Sell)|
  {
    if book != [] {
      SidesCoverBook(book[1..]);
    }
  }

  lemma {:induction false} IndexCountsAll(symbol: Symbol, mem: seq<Order>, sn: BookState)
    requires BookInv(symbol, mem, sn)
    ensures |sn.lookup| == |sn.contents| == |OnSide(sn.contents, Buy)| + |OnSide(sn.contents, Sell)|
  {
    hide Couples, View, Filter;
    UniqueIdsCount(sn.contents);
    SidesCoverBook(sn.contents);
    forall id ensures id in sn.lookup.Keys <==> id in Ids(sn.contents) {
      if HasId(sn.contents, id) {
        var k :| 0 <= k < |sn.contents| && sn.contents[k].id == id;
        assert sn.contents[k] in sn.contents;
      }
    }
    assert sn.lookup.Keys == Ids(sn.contents);
  }
}
