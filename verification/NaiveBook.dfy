/** The reference book: the open orders of one symbol in arrival order, searched linearly.  It has no
    price levels, no identifier index and no pool; it says what price-time priority means. */
module NaiveBook {
  import opened Types

  type Book = seq<Order>

  predicate Open(book: Book) {
    forall k :: 0 <= k < |book| ==> book[k].IsOpen()
  }

  predicate UniqueIds(book: Book) {
    forall i, j :: 0 <= i < j < |book| ==> book[i].id != book[j].id
  }

  predicate HasId(book: Book, id: OrderID) {
    exists k :: 0 <= k < |book| && book[k].id == id
  }

  function Drop<T>(s: seq<T>, k: nat): seq<T>
    requires k < |s|
  {
    s[..k] + s[k + 1..]
  }

  // ---------------------------------------------------------------- filters and totals

  function Filter(book: Book, f: Order -> bool): Book {
    if book == [] then [] else (if f(book[0]) then [book[0]] else []) + Filter(book[1..], f)
  }

  function IsOnSide(side: Side): Order -> bool {
    (o: Order) => o.side == side
  }

  function IsAt(side: Side, price: Price): Order -> bool {
    (o: Order) => o.side == side && o.price == price
  }

  function OnSide(book: Book, side: Side): Book {
    Filter(book, IsOnSide(side))
  }

  function At(book: Book, side: Side, price: Price): Book {
    Filter(book, IsAt(side, price))
  }

  function Total(book: Book): int {
    if book == [] then 0 else book[0].Left() + Total(book[1..])
  }

  lemma {:induction false} FilterConcat(a: Book, b: Book, f: Order -> bool)
    ensures Filter(a + b, f) == Filter(a, f) + Filter(b, f)
  {
    if a == [] {
      assert a + b == b;
    } else {
      assert (a + b)[1..] == a[1..] + b;
      FilterConcat(a[1..], b, f);
      SeqAssociates(if f(a[0]) then [a[0]] else [], Filter(a[1..], f), Filter(b, f));
    }
  }

  lemma {:induction false} FilterNone(book: Book, f: Order -> bool)
    requires forall k :: 0 <= k < |book| ==> !f(book[k])
    ensures Filter(book, f) == []
  {
    if book != [] {
      FilterNone(book[1..], f);
    }
  }

  lemma {:induction false} FilterAll(book: Book, f: Order -> bool)
    requires forall k :: 0 <= k < |book| ==> f(book[k])
    ensures Filter(book, f) == book
  {
    if book != [] {
      FilterAll(book[1..], f);
    }
  }

  /** Every filtered order comes from the book and passes the test. */
  lemma {:induction false} FilterMembers(book: Book, f: Order -> bool, o: Order)
    ensures o in Filter(book, f) <==> o in book && f(o)
  {
    if book != [] {
      FilterMembers(book[1..], f, o);
    }
  }

  lemma {:induction false} FilterSplit(book: Book, k: nat, f: Order -> bool)
    requires k < |book|
    ensures Filter(book, f) == Filter(book[..k], f) + (if f(book[k]) then [book[k]] else []) + Filter(book[k + 1..], f)
  {
    assert book == book[..k] + book[k..];
    FilterConcat(book[..k], book[k..], f);
    assert book[k..][1..] == book[k + 1..];
  }

  /** What a filter sees when the order at position k is removed or replaced. */
  lemma {:induction false} FilterAround(book: Book, k: nat, o: Order, f: Order -> bool)
    requires k < |book|
    ensures Filter(book, f) == Filter(book[..k], f) + (if f(book[k]) then [book[k]] else []) + Filter(book[k + 1..], f)
    ensures Filter(Drop(book, k), f) == Filter(book[..k], f) + Filter(book[k + 1..], f)
    ensures Filter(book[k := o], f) == Filter(book[..k], f) + (if f(o) then [o] else []) + Filter(book[k + 1..], f)
  {
    FilterSplit(book, k, f);
    FilterConcat(book[..k], book[k + 1..], f);
    FilterSplit(book[k := o], k, f);
    assert book[k := o][..k] == book[..k] && book[k := o][k + 1..] == book[k + 1..];
  }

  /** When nothing before position k passes, the order at k heads the filtered list. */
  lemma {:induction false} FilterHead(book: Book, k: nat, f: Order -> bool)
    requires k < |book|
    requires f(book[k]) ==> forall j :: 0 <= j < k ==> !f(book[j])
    ensures Filter(book, f) == (if f(book[k]) then [book[k]] else []) + Filter(Drop(book, k), f)
  {
    var pre, post := Filter(book[..k], f), Filter(book[k + 1..], f);
    assert Filter(Drop(book, k), f) == pre + post by {
      FilterConcat(book[..k], book[k + 1..], f);
    }
    if f(book[k]) {
      assert pre == [] by {
        FilterNone(book[..k], f);
      }
      assert Filter(book, f) == [book[k]] + post by {
        FilterSplit(book, k, f);
      }
    } else {
      assert Filter(book, f) == pre + post by {
        FilterSplit(book, k, f);
      }
    }
  }

  lemma {:induction false} TotalConcat(a: Book, b: Book)
    ensures Total(a + b) == Total(a) + Total(b)
  {
    if a == [] {
      assert a + b == b;
    } else {
      assert (a + b)[1..] == a[1..] + b;
      TotalConcat(a[1..], b);
    }
  }

  lemma {:induction false} TotalOpen(book: Book)
    requires Open(book)
    ensures Total(book) >= |book|
  {
    if book != [] {
      TotalOpen(book[1..]);
    }
  }

  /** Removing, or part-filling, the order at k lowers a filtered total by exactly that much. */
  lemma {:induction false} TotalAround(book: Book, k: nat, qty: int, f: Order -> bool)
    requires k < |book| && 0 <= qty <= book[k].Left()
    requires f(book[k]) == f(book[k].Fill(qty))
    ensures Total(Filter(Drop(book, k), f)) == Total(Filter(book, f)) - if f(book[k]) then book[k].Left() else 0
    ensures Total(Filter(book[k := book[k].Fill(qty)], f)) == Total(Filter(book, f)) - if f(book[k]) then qty else 0
  {
    var o, o' := book[k], book[k].Fill(qty);
    FilterAround(book, k, o', f);
    var pre, post := Filter(book[..k], f), Filter(book[k + 1..], f);
    TotalConcat(pre, post);
    TotalConcat(pre + [o], post);
    TotalConcat(pre, [o]);
    TotalConcat(pre + [o'], post);
    TotalConcat(pre, [o']);
    assert pre + [] == pre;
  }

  // ---------------------------------------------------------------- choosing an order by linear scan

  predicate Before(up: bool, a: Price, b: Price) {
    if up then a < b else a > b
  }

  /** k is the order of that side with the extreme price and, among those, the earliest arrival. */
  predicate IsFirst(book: Book, side: Side, up: bool, k: nat) {
    && k < |book|
    && book[k].side == side
    && (forall j :: 0 <= j < |book| && book[j].side == side ==> !Before(up, book[j].price, book[k].price))
    && (forall j :: 0 <= j < k && book[j].side == side ==> book[j].price != book[k].price)
  }

  function First(book: Book, side: Side, up: bool): (k: int)
    ensures -1 <= k < |book|
    ensures k == -1 <==> forall j :: 0 <= j < |book| ==> book[j].side != side
    ensures 0 <= k ==> IsFirst(book, side, up, k)
  {
    if book == [] then -1 else
    var n := |book| - 1;
    var k := First(book[..n], side, up);
    if book[n].side != side then k
    else if k == -1 || Before(up, book[n].price, book[k].price) then n
    else k
  }

  lemma {:induction false} FirstIsUnique(book: Book, side: Side, up: bool, k: nat)
    requires IsFirst(book, side, up, k)
    ensures First(book, side, up) == k
  {
    var m := First(book, side, up);
    assert book[k].side == side && book[m].side == side;
    assert book[k].price == book[m].price;
  }

  /** The orders of one side in the order repeated selection takes them. */
  function Queue(book: Book, side: Side, up: bool): Book
    decreases |book|
  {
    var k := First(book, side, up);
    if k == -1 then [] else [book[k]] + Queue(Drop(book, k), side, up)
  }

  /** Until the first order at some price is taken, its level loses nothing; then it loses its head. */
  lemma {:induction false} AtDropFirst(book: Book, side: Side, up: bool, price: Price)
    requires First(book, side, up) >= 0
    ensures var k := First(book, side, up);
      At(book, side, price) == (if price == book[k].price then [book[k]] else []) + At(Drop(book, k), side, price)
  {
    FilterHead(book, First(book, side, up), IsAt(side, price));
  }

  predicate SortedBy(queue: Book, up: bool) {
    forall i, j :: 0 <= i < j < |queue| ==> !Before(up, queue[j].price, queue[i].price)
  }

  /** The queue holds orders of its side, sorted by price ... */
  lemma {:induction false} QueueIsSorted(book: Book, side: Side, up: bool)
    ensures var queue := Queue(book, side, up);
      SortedBy(queue, up) && forall o :: o in queue ==> o in book && o.side == side
    decreases |book|
  {
    var k := First(book, side, up);
    if k >= 0 {
      var rest := Queue(Drop(book, k), side, up);
      QueueIsSorted(Drop(book, k), side, up);
      forall o | o in rest ensures o in book && o.side == side && !Before(up, o.price, book[k].price) {
        assert o in Drop(book, k);
      }
      forall i | 0 <= i < |rest| ensures !Before(up, rest[i].price, book[k].price) {
        assert rest[i] in rest;
      }
    }
  }

  /** ... and at every price it is exactly the arrival order. */
  lemma {:induction false} QueueIsStable(book: Book, side: Side, up: bool, price: Price)
    ensures At(Queue(book, side, up), side, price) == At(book, side, price)
    decreases |book|
  {
    var k := First(book, side, up);
    if k == -1 {
      FilterNone(book, IsAt(side, price));
    } else {
      var rest := Queue(Drop(book, k), side, up);
      QueueIsStable(Drop(book, k), side, up, price);
      AtDropFirst(book, side, up, price);
      assert ([book[k]] + rest)[1..] == rest;
    }
  }

  // ---------------------------------------------------------------- matching

  predicate Crosses(side: Side, kind: OrderType, limit: Price, price: Price) {
    kind.Market? || (if side.Buy? then price <= limit else price >= limit)
  }

  predicate WouldTrade(taker: Order, price: Price) {
    Crosses(taker.side, taker.kind, taker.price, price)
  }

  function TradeBetween(taker: Order, maker: Order, qty: Quantity): Trade {
    if taker.side.Buy?
    then Trade(taker.id, taker.userId, maker.id, maker.userId, taker.symbol, maker.price, qty)
    else Trade(maker.id, maker.userId, taker.id, taker.userId, maker.symbol, maker.price, qty)
  }

  /** The maker the taker meets next: lowest ask for a buyer, highest bid for a seller. */
  function Maker(book: Book, taker: Order): int {
    First(book, taker.side.Opposite(), taker.side.Buy?)
  }

  predicate CanTrade(book: Book, taker: Order) {
    taker.IsOpen() && Maker(book, taker) >= 0 && WouldTrade(taker, book[Maker(book, taker)].price)
  }

  function Min(a: int, b: int): int {
    if a < b then a else b
  }

  function TradedQty(book: Book, taker: Order): (qty: int)
    requires Open(book) && CanTrade(book, taker)
    ensures 0 < qty <= taker.Left() && qty <= book[Maker(book, taker)].Left()
    ensures qty == taker.Left() || qty == book[Maker(book, taker)].Left()
  {
    Min(taker.Left(), book[Maker(book, taker)].Left())
  }

  function AfterTrade(book: Book, k: nat, qty: int): Book
    requires k < |book| && 0 <= qty <= book[k].Left()
  {
    if qty == book[k].Left() then Drop(book, k) else book[k := book[k].Fill(qty)]
  }

  lemma {:induction false} AfterTradeOpen(book: Book, k: nat, qty: int)
    requires k < |book| && 0 <= qty <= book[k].Left() && Open(book)
    ensures Open(AfterTrade(book, k, qty))
  {
  }

  datatype Swept = Swept(trades: seq<Trade>, taker: Order, book: Book)

  function Sweep(book: Book, taker: Order): (r: Swept)
    requires Open(book) && taker.filled <= taker.quantity
    ensures Open(r.book)
    ensures r.taker == taker.(filled := r.taker.filled) && taker.filled <= r.taker.filled <= taker.quantity
    ensures !CanTrade(r.book, r.taker)
    ensures |r.book| <= |book|
    decreases taker.Left()
  {
    if !CanTrade(book, taker) then
      Swept([], taker, book)
    else
      var k := Maker(book, taker);
      var qty := TradedQty(book, taker);
      AfterTradeOpen(book, k, qty);
      var rest := Sweep(AfterTrade(book, k, qty), taker.Fill(qty));
      rest.(trades := [TradeBetween(taker, book[k], qty)] + rest.trades)
  }
}
