/** The order book's own data: two ladders of list nodes, and an index from identifier to the order's
    slot and list node.  Orders live in the pool; `mem` is the pool's contents.  Beside them, as a ghost,
    runs the naive book the structures stand for. */
module BookModel {
  import opened Types
  import opened NaiveBook
  import opened SweepLaws
  import opened Ladder

  type Slot = nat

  /** A list node: its identity (what a list iterator denotes) and the pointer stored in it. */
  datatype Node = Node(handle: nat, slot: Slot)

  datatype OrderInfo = OrderInfo(slot: Slot, listIt: nat)

  datatype BookState = BookState(buys: Ladder<Node>, sells: Ladder<Node>, lookup: map<OrderID, OrderInfo>,
                                 nextHandle: nat, contents: Book)
  {
    function Levels(side: Side): Ladder<Node> {
      if side.Buy? then buys else sells
    }

    function WithLevels(side: Side, l: Ladder<Node>): BookState {
      if side.Buy? then this.(buys := l) else this.(sells := l)
    }
  }

  const EMPTY_BOOK := BookState([], [], map[], 0, [])

  // ---------------------------------------------------------------- what the nodes point at

  predicate InPool(l: Ladder<Node>, capacity: nat) {
    forall i, j :: 0 <= i < |l| && 0 <= j < |l[i].items| ==> l[i].items[j].slot < capacity
  }

  function Deref(nodes: seq<Node>, mem: seq<Order>): (orders: seq<Order>)
    requires forall j :: 0 <= j < |nodes| ==> nodes[j].slot < |mem|
    ensures |orders| == |nodes| && forall j :: 0 <= j < |nodes| ==> orders[j] == mem[nodes[j].slot]
  {
    seq(|nodes|, j requires 0 <= j < |nodes| => mem[nodes[j].slot])
  }

  function View(l: Ladder<Node>, mem: seq<Order>): (v: Ladder<Order>)
    requires InPool(l, |mem|)
    ensures |v| == |l| && forall i :: 0 <= i < |l| ==> v[i] == Level(l[i].price, Deref(l[i].items, mem))
  {
    seq(|l|, i requires 0 <= i < |l| => Level(l[i].price, Deref(l[i].items, mem)))
  }

  lemma {:induction false} ViewPlace(l: Ladder<Node>, mem: seq<Order>, price: Price)
    requires InPool(l, |mem|) && Ascending(l)
    ensures Place(View(l, mem), price) == Place(l, price) && HasPrice(View(l, mem), price) == HasPrice(l, price)
  {
    hide Place;
    var v := View(l, mem);
    var i, j := Place(l, price), Place(v, price);
    var m := if i < j then i else j;
    assert m < |l| ==> v[m].price == l[m].price;
  }

  lemma {:induction false} DerefAppend(nodes: seq<Node>, mem: seq<Order>, n: Node)
    requires n.slot < |mem| && forall j :: 0 <= j < |nodes| ==> nodes[j].slot < |mem|
    ensures Deref(nodes + [n], mem) == Deref(nodes, mem) + [mem[n.slot]]
  {
    hide Deref;
  }

  lemma {:induction false} ViewConcat(a: Ladder<Node>, b: Ladder<Node>, mem: seq<Order>)
    requires InPool(a, |mem|) && InPool(b, |mem|)
    ensures InPool(a + b, |mem|) && View(a + b, mem) == View(a, mem) + View(b, mem)
  {
    hide View, Deref;
    assert forall i :: 0 <= i < |a + b| ==> (a + b)[i] == if i < |a| then a[i] else b[i - |a|];
  }

  lemma {:induction false} ViewSlices(l: Ladder<Node>, mem: seq<Order>, i: nat)
    requires InPool(l, |mem|) && i <= |l|
    ensures InPool(l[..i], |mem|) && View(l[..i], mem) == View(l, mem)[..i]
    ensures InPool(l[i..], |mem|) && View(l[i..], mem) == View(l, mem)[i..]
  {
    hide View, Deref;
  }

  lemma {:induction false} ViewUpdate(l: Ladder<Node>, mem: seq<Order>, i: nat, nodes: seq<Node>)
    requires InPool(l, |mem|) && i < |l| && forall j :: 0 <= j < |nodes| ==> nodes[j].slot < |mem|
    ensures InPool(l[i := Level(l[i].price, nodes)], |mem|)
    ensures View(l[i := Level(l[i].price, nodes)], mem) == View(l, mem)[i := Level(l[i].price, Deref(nodes, mem))]
  {
    hide View, Deref;
  }

  lemma {:induction false} ViewAppend(l: Ladder<Node>, mem: seq<Order>, price: Price, n: Node)
    requires InPool(l, |mem|) && Ascending(l) && n.slot < |mem|
    ensures InPool(Append(l, price, n), |mem|)
    ensures View(Append(l, price, n), mem) == Append(View(l, mem), price, mem[n.slot])
  {
    ViewPlace(l, mem, price);
    hide Place, View, Deref, Ascending;
    var i, o := Place(l, price), mem[n.slot];
    if HasPrice(l, price) {
      DerefAppend(l[i].items, mem, n);
      ViewUpdate(l, mem, i, l[i].items + [n]);
    } else {
      var one := [Level(price, [n])];
      assert Deref([n], mem) == [o];
      assert View(one, mem) == [Level(price, [o])];
      ViewSlices(l, mem, i);
      ViewConcat(l[..i], one, mem);
      ViewConcat(l[..i] + one, l[i..], mem);
    }
  }

  lemma {:induction false} ViewErase(l: Ladder<Node>, mem: seq<Order>, i: nat, j: nat)
    requires InPool(l, |mem|) && i < |l| && j < |l[i].items|
    ensures InPool(Erase(l, i, j), |mem|)
    ensures View(Erase(l, i, j), mem) == Erase(View(l, mem), i, j)
  {
    hide View, Deref;
    if |l[i].items| == 1 {
      ViewSlices(l, mem, i);
      ViewSlices(l, mem, i + 1);
      ViewConcat(l[..i], l[i + 1..], mem);
    } else {
      var nodes := Drop(l[i].items, j);
      assert Deref(nodes, mem) == Drop(Deref(l[i].items, mem), j);
      ViewUpdate(l, mem, i, nodes);
    }
  }

  /** Writing a slot that exactly one node points at changes that one entry of the view. */
  lemma {:induction false} ViewPut(l: Ladder<Node>, mem: seq<Order>, i: nat, j: nat, o: Order)
    requires InPool(l, |mem|) && i < |l| && j < |l[i].items|
    requires forall i', j' :: 0 <= i' < |l| && 0 <= j' < |l[i'].items| && l[i'].items[j'].slot == l[i].items[j].slot
               ==> i' == i && j' == j
    ensures View(l, mem[l[i].items[j].slot := o]) == Put(View(l, mem), i, j, o)
  {
    var mem' := mem[l[i].items[j].slot := o];
    forall i' | 0 <= i' < |l| ensures Deref(l[i'].items, mem') ==
      if i' == i then Deref(l[i].items, mem)[j := o] else Deref(l[i'].items, mem)
    {
    }
  }

  lemma {:induction false} ViewFrame(l: Ladder<Node>, mem: seq<Order>, mem': seq<Order>)
    requires InPool(l, |mem|) && |mem'| == |mem|
    requires forall i, j :: 0 <= i < |l| && 0 <= j < |l[i].items| ==>
      mem'[l[i].items[j].slot] == mem[l[i].items[j].slot]
    ensures View(l, mem') == View(l, mem)
  {
    forall i | 0 <= i < |l| ensures Deref(l[i].items, mem') == Deref(l[i].items, mem) {
    }
  }

  // ---------------------------------------------------------------- the invariant

  /** The index entry of a node's order names that node. */
  predicate NodeIndexed(n: Node, mem: seq<Order>, lookup: map<OrderID, OrderInfo>)
    requires n.slot < |mem|
  {
    mem[n.slot].id in lookup && lookup[mem[n.slot].id] == OrderInfo(n.slot, n.handle)
  }

  predicate SideInv(l: Ladder<Node>, side: Side, mem: seq<Order>, sn: BookState) {
    && InPool(l, |mem|)
    && Couples(View(l, mem), sn.contents, side)
    && forall i, j :: 0 <= i < |l| && 0 <= j < |l[i].items| ==> NodeIndexed(l[i].items[j], mem, sn.lookup)
  }

  predicate IndexInv(mem: seq<Order>, sn: BookState) {
    && (forall id :: id in sn.lookup <==> HasId(sn.contents, id))
    && (forall id :: id in sn.lookup ==>
          sn.lookup[id].slot < |mem| && mem[sn.lookup[id].slot].id == id && sn.lookup[id].listIt < sn.nextHandle)
    && (forall id, id' :: id in sn.lookup && id' in sn.lookup && sn.lookup[id].listIt == sn.lookup[id'].listIt ==>
          id == id')
  }

  predicate OfSymbol(book: Book, symbol: Symbol) {
    forall k :: 0 <= k < |book| ==> book[k].symbol == symbol
  }

  /** All three structures describe the naive book: each ladder groups its side by price in arrival order,
      no level is empty, and the index is a bijection between identifiers, slots and list nodes. */
  predicate BookInv(symbol: Symbol, mem: seq<Order>, sn: BookState) {
    && UniqueIds(sn.contents) && OfSymbol(sn.contents, symbol)
    && SideInv(sn.buys, Buy, mem, sn)
    && SideInv(sn.sells, Sell, mem, sn)
    && IndexInv(mem, sn)
  }

  lemma {:induction false} IndexIsIds(symbol: Symbol, mem: seq<Order>, sn: BookState, id: OrderID)
    requires BookInv(symbol, mem, sn)
    ensures id in sn.lookup <==> HasId(sn.contents, id)
    ensures UniqueIds(sn.contents)
  {
  }

  /** Where the program finds an order it looks up by identifier. */
  lemma {:induction false} Locate(symbol: Symbol, mem: seq<Order>, sn: BookState, k: nat)
    requires BookInv(symbol, mem, sn) && k < |sn.contents|
    ensures var o := sn.contents[k];
      var l := sn.Levels(o.side);
      var i, j := Place(l, o.price), Rank(sn.contents, k);
      && HasPrice(l, o.price) && j < |l[i].items| && o.id in sn.lookup
      && l[i].items[j] == Node(sn.lookup[o.id].listIt, sn.lookup[o.id].slot)
      && l[i].items[j].slot < |mem| && mem[l[i].items[j].slot] == o
  {
    hide Place, Rank;
    var o := sn.contents[k];
    var l := sn.Levels(o.side);
    PlaceOfOrder(View(l, mem), sn.contents, k);
    assert Ascending(l) by {
      assert forall i :: 0 <= i < |l| ==> l[i].price == View(l, mem)[i].price;
    }
    ViewPlace(l, mem, o.price);
    var i, j := Place(l, o.price), Rank(sn.contents, k);
    assert NodeIndexed(l[i].items[j], mem, sn.lookup);
  }

  /** A node in a ladder of the book stands for an order of the naive book with the level's price. */
  lemma {:induction false} NodeOrder(l: Ladder<Node>, side: Side, mem: seq<Order>, sn: BookState, i: nat, j: nat)
    requires SideInv(l, side, mem, sn) && i < |l| && j < |l[i].items|
    ensures var o := mem[l[i].items[j].slot];
      o in sn.contents && o.side == side && o.price == l[i].price && View(l, mem)[i].items[j] == o
  {
    var v := View(l, mem);
    assert v[i].items[j] == mem[l[i].items[j].slot];
    AtMembers(sn.contents, side, l[i].price, v[i].items[j]);
  }

  // ---------------------------------------------------------------- adding

  /** add_order: push the pointer back at its price and index the new list node. */
  function Added(mem: seq<Order>, sn: BookState, p: Slot): BookState
    requires p < |mem|
  {
    var o := mem[p];
    sn.WithLevels(o.side, Append(sn.Levels(o.side), o.price, Node(sn.nextHandle, p)))
      .(lookup := sn.lookup[o.id := OrderInfo(p, sn.nextHandle)],
        nextHandle := sn.nextHandle + 1,
        contents := sn.contents + [o])
  }

  lemma {:induction false} SideAscending(l: Ladder<Node>, side: Side, mem: seq<Order>, sn: BookState)
    requires SideInv(l, side, mem, sn)
    ensures Ascending(l)
    ensures forall i :: 0 <= i < |l| ==> l[i].items != []
  {
    var v := View(l, mem);
    assert forall i :: 0 <= i < |l| ==> v[i].price == l[i].price && |v[i].items| == |l[i].items|;
  }

  lemma {:induction false} AppendNodes(l: Ladder<Node>, price: Price, n: Node, i: nat, j: nat)
    requires i < |Append(l, price, n)| && j < |Append(l, price, n)[i].items|
    ensures var m := Append(l, price, n)[i].items[j];
      m == n || exists i', j' :: 0 <= i' < |l| && 0 <= j' < |l[i'].items| && l[i'].items[j'] == m
  {
    hide Place;
    var p, l' := Place(l, price), Append(l, price, n);
    if l'[i].items[j] != n {
      var q := if HasPrice(l, price) || i < p then i else i - 1;
      assert l[q].items[j] == l'[i].items[j];
    }
  }

  lemma {:induction false} SideAfterAdd(l: Ladder<Node>, side: Side, mem: seq<Order>, sn: BookState, p: Slot)
    requires SideInv(l, side, mem, sn) && p < |mem| && !HasId(sn.contents, mem[p].id)
    ensures SideInv(if mem[p].side == side then Append(l, mem[p].price, Node(sn.nextHandle, p)) else l, side, mem,
                    Added(mem, sn, p))
  {
    hide Place, View, Couples;
    var o, n, sn' := mem[p], Node(sn.nextHandle, p), Added(mem, sn, p);
    var l' := if o.side == side then Append(l, o.price, n) else l;
    SideAscending(l, side, mem, sn);
    ViewAppend(l, mem, o.price, n);
    AppendCouples(View(l, mem), sn.contents, side, o);
    forall i, j | 0 <= i < |l'| && 0 <= j < |l'[i].items| ensures NodeIndexed(l'[i].items[j], mem, sn'.lookup) {
      if o.side == side {
        AppendNodes(l, o.price, n, i, j);
      }
      if l'[i].items[j] != n {
        OldNodeIndexed(l, side, mem, sn, p, l'[i].items[j]);
      }
    }
  }

  lemma {:induction false} OldNodeIndexed(l: Ladder<Node>, side: Side, mem: seq<Order>, sn: BookState, p: Slot, n: Node)
    requires SideInv(l, side, mem, sn) && p < |mem| && !HasId(sn.contents, mem[p].id)
    requires exists i, j :: 0 <= i < |l| && 0 <= j < |l[i].items| && l[i].items[j] == n
    ensures n.slot < |mem| && NodeIndexed(n, mem, Added(mem, sn, p).lookup)
  {
    hide Place, View, Couples;
    var i, j :| 0 <= i < |l| && 0 <= j < |l[i].items| && l[i].items[j] == n;
    NodeOrder(l, side, mem, sn, i, j);
    var k :| 0 <= k < |sn.contents| && sn.contents[k] == mem[n.slot];
  }

  lemma {:induction false} IndexAfterAdd(mem: seq<Order>, sn: BookState, p: Slot)
    requires IndexInv(mem, sn) && p < |mem| && !HasId(sn.contents, mem[p].id)
    ensures IndexInv(mem, Added(mem, sn, p))
  {
    hide Place;
    var o, sn' := mem[p], Added(mem, sn, p);
    forall id ensures id in sn'.lookup <==> HasId(sn'.contents, id) {
      HasIdAppended(sn.contents, o, id);
    }
  }

  lemma {:induction false} HasIdAppended(book: Book, o: Order, id: OrderID)
    ensures HasId(book + [o], id) <==> HasId(book, id) || id == o.id
  {
    var book' := book + [o];
    assert book'[|book|] == o;
    if HasId(book, id) {
      var k :| 0 <= k < |book| && book[k].id == id;
      assert book'[k].id == id;
    }
  }

  lemma {:induction false} OfSymbolAppended(book: Book, o: Order, symbol: Symbol)
    requires OfSymbol(book, symbol)
    ensures OfSymbol(book + [o], symbol) <==> o.symbol == symbol
  {
    assert (book + [o])[|book|] == o;
  }

  /** Adding keeps the agreement if and only if the order is of the book's symbol and no order rests under
      its identifier; otherwise the index entry of the older order is overwritten. */
  lemma {:induction false} AddedInv(symbol: Symbol, mem: seq<Order>, sn: BookState, p: Slot)
    requires BookInv(symbol, mem, sn) && p < |mem|
    ensures BookInv(symbol, mem, Added(mem, sn, p)) <==> mem[p].symbol == symbol && !HasId(sn.contents, mem[p].id)
  {
    hide Place, SideInv, IndexInv, HasId, UniqueIds, OfSymbol, Append;
    UniqueAppended(sn.contents, mem[p]);
    OfSymbolAppended(sn.contents, mem[p], symbol);
    if !HasId(sn.contents, mem[p].id) {
      SideAfterAdd(sn.buys, Buy, mem, sn, p);
      SideAfterAdd(sn.sells, Sell, mem, sn, p);
      IndexAfterAdd(mem, sn, p);
    }
  }

  // ---------------------------------------------------------------- erasing

  /** The list node an iterator denotes. */
  function PositionOf(nodes: seq<Node>, handle: nat): (j: int)
    ensures -1 <= j < |nodes|
    ensures 0 <= j ==> nodes[j].handle == handle
    ensures j == -1 ==> forall m :: 0 <= m < |nodes| ==> nodes[m].handle != handle
  {
    if nodes == [] then -1
    else if nodes[0].handle == handle then 0
    else
      var j := PositionOf(nodes[1..], handle);
      assert forall m :: 1 <= m < |nodes| ==> nodes[m] == nodes[1..][m - 1];
      if j == -1 then -1 else j + 1
  }

  function Without(book: Book, id: OrderID): Book {
    var k := IndexOf(book, id);
    if k == -1 then book else Drop(book, k)
  }

  lemma {:induction false} WithoutNone(book: Book, id: OrderID)
    requires !HasId(book, id)
    ensures Without(book, id) == book && Get(book, id) == None
  {
    hide IndexOf;
  }

  /** cancel_order, once the identifier is found: erase the list node, the level if that was its last,
      and the index entry; nothing at all when the price map has no such level. */
  function Erased(mem: seq<Order>, sn: BookState, id: OrderID): BookState
    requires id in sn.lookup && sn.lookup[id].slot < |mem|
  {
    var o := mem[sn.lookup[id].slot];
    var l := sn.Levels(o.side);
    if !HasPrice(l, o.price) then sn else
    var i := Place(l, o.price);
    var j := PositionOf(l[i].items, sn.lookup[id].listIt);
    if j == -1 then sn else
    sn.WithLevels(o.side, Erase(l, i, j)).(lookup := sn.lookup - {id}, contents := Without(sn.contents, id))
  }

  lemma {:induction false} FilterUnique(book: Book, f: Order -> bool)
    requires UniqueIds(book)
    ensures UniqueIds(Filter(book, f))
  {
    if book != [] {
      var rest := Filter(book[1..], f);
      FilterUnique(book[1..], f);
      forall j | 0 <= j < |rest| ensures rest[j].id != book[0].id {
        assert rest[j] in rest;
        FilterMembers(book[1..], f, rest[j]);
        var m :| 0 <= m < |book[1..]| && book[1..][m] == rest[j];
        assert book[m + 1] == rest[j];
      }
    }
  }

  /** Two entries of a level with the same identifier are the same entry. */
  lemma {:induction false} SameEntry(l: Ladder<Order>, book: Book, side: Side, i: nat, j: nat, j': nat)
    requires UniqueIds(book) && Couples(l, book, side)
    requires i < |l| && j < |l[i].items| && j' < |l[i].items| && l[i].items[j].id == l[i].items[j'].id
    ensures j == j'
  {
    FilterUnique(book, IsAt(side, l[i].price));
  }

  /** The iterator stored for an order denotes the node that carries it, at its place in the level. */
  lemma {:induction false} IteratorIsRight(symbol: Symbol, mem: seq<Order>, sn: BookState, id: OrderID)
    requires BookInv(symbol, mem, sn) && id in sn.lookup
    ensures var k, p := IndexOf(sn.contents, id), sn.lookup[id].slot;
      && k >= 0 && p < |mem| && mem[p] == sn.contents[k]
      && var l := sn.Levels(mem[p].side);
      && HasPrice(l, mem[p].price)
      && PositionOf(l[Place(l, mem[p].price)].items, sn.lookup[id].listIt) == Rank(sn.contents, k)
  {
    hide Place, Rank, PositionOf, IndexOf, Couples, View;
    var k := IndexOf(sn.contents, id);
    Locate(symbol, mem, sn, k);
    var o := sn.contents[k];
    var l := sn.Levels(o.side);
    var i, j := Place(l, o.price), Rank(sn.contents, k);
    var j' := PositionOf(l[i].items, sn.lookup[id].listIt);
    assert NodeIndexed(l[i].items[j'], mem, sn.lookup);
    NodeOrder(l, o.side, mem, sn, i, j);
    NodeOrder(l, o.side, mem, sn, i, j');
    SameEntry(View(l, mem), sn.contents, o.side, i, j, j');
  }

  lemma {:induction false} EraseNodes(l: Ladder<Node>, i: nat, j: nat, a: nat, b: nat)
    requires i < |l| && j < |l[i].items| && a < |Erase(l, i, j)| && b < |Erase(l, i, j)[a].items|
    ensures exists a', b' :: 0 <= a' < |l| && 0 <= b' < |l[a'].items| && l[a'].items[b'] == Erase(l, i, j)[a].items[b]
  {
    var gone := |l[i].items| == 1;
    var a' := if gone && a >= i then a + 1 else a;
    var b' := if !gone && a == i && b >= j then b + 1 else b;
    assert l[a'].items[b'] == Erase(l, i, j)[a].items[b];
  }

  lemma {:induction false} WithoutIds(book: Book, k: nat, id: OrderID)
    requires UniqueIds(book) && k < |book|
    ensures Without(book, book[k].id) == Drop(book, k) && UniqueIds(Drop(book, k))
    ensures HasId(Drop(book, k), id) <==> HasId(book, id) && id != book[k].id
  {
    hide IndexOf;
    assert HasId(book, book[k].id);
    if HasId(book, id) && id != book[k].id {
      var m :| 0 <= m < |book| && book[m].id == id;
      assert Drop(book, k)[if m < k then m else m - 1].id == id;
    }
  }

  /** A ladder that couples with the smaller book keeps its index entries when one identifier goes. */
  lemma {:induction false} NodesStayIndexed(l: Ladder<Node>, side: Side, mem: seq<Order>, was: BookState,
      sn: BookState, id: OrderID)
    requires InPool(l, |mem|) && Couples(View(l, mem), sn.contents, side)
    requires forall i, j :: 0 <= i < |l| && 0 <= j < |l[i].items| ==> NodeIndexed(l[i].items[j], mem, was.lookup)
    requires sn.lookup == was.lookup - {id} && !HasId(sn.contents, id)
    ensures SideInv(l, side, mem, sn)
  {
    hide Couples;
    forall i, j | 0 <= i < |l| && 0 <= j < |l[i].items| ensures NodeIndexed(l[i].items[j], mem, sn.lookup) {
      var o := mem[l[i].items[j].slot];
      ViewOrder(l, side, mem, sn.contents, i, j);
      var m :| 0 <= m < |sn.contents| && sn.contents[m] == o;
    }
  }

  lemma {:induction false} ViewOrder(l: Ladder<Node>, side: Side, mem: seq<Order>, book: Book, i: nat, j: nat)
    requires InPool(l, |mem|) && Couples(View(l, mem), book, side) && i < |l| && j < |l[i].items|
    ensures mem[l[i].items[j].slot] in book
  {
    var v := View(l, mem);
    assert v[i].items[j] == mem[l[i].items[j].slot];
    AtMembers(book, side, l[i].price, v[i].items[j]);
  }

  lemma {:induction false} OwnSideAfterErase(l: Ladder<Node>, mem: seq<Order>, sn: BookState, sn': BookState, k: nat)
    requires k < |sn.contents| && SideInv(l, sn.contents[k].side, mem, sn)
    requires var o := sn.contents[k];
      && HasPrice(l, o.price) && Rank(sn.contents, k) < |l[Place(l, o.price)].items|
      && sn'.lookup == sn.lookup - {o.id} && sn'.contents == Drop(sn.contents, k) && !HasId(sn'.contents, o.id)
    ensures var o := sn.contents[k];
      SideInv(Erase(l, Place(l, o.price), Rank(sn.contents, k)), o.side, mem, sn')
  {
    hide Place, Rank, Couples, View, HasId, Erase, Drop;
    var o := sn.contents[k];
    var i, j := Place(l, o.price), Rank(sn.contents, k);
    SideAscending(l, o.side, mem, sn);
    ViewPlace(l, mem, o.price);
    ViewErase(l, mem, i, j);
    EraseCouples(View(l, mem), sn.contents, k);
    forall a, b | 0 <= a < |Erase(l, i, j)| && 0 <= b < |Erase(l, i, j)[a].items|
      ensures NodeIndexed(Erase(l, i, j)[a].items[b], mem, sn.lookup)
    {
      EraseNodes(l, i, j, a, b);
    }
    NodesStayIndexed(Erase(l, i, j), o.side, mem, sn, sn', o.id);
  }

  lemma {:induction false} OtherSideAfterErase(l: Ladder<Node>, mem: seq<Order>, sn: BookState, sn': BookState, k: nat)
    requires k < |sn.contents| && SideInv(l, sn.contents[k].side.Opposite(), mem, sn)
    requires var o := sn.contents[k];
      sn'.lookup == sn.lookup - {o.id} && sn'.contents == Drop(sn.contents, k) && !HasId(sn'.contents, o.id)
    ensures SideInv(l, sn.contents[k].side.Opposite(), mem, sn')
  {
    hide Couples, View, HasId, Drop;
    var o := sn.contents[k];
    EraseElsewhere(View(l, mem), sn.contents, k, o.side.Opposite());
    NodesStayIndexed(l, o.side.Opposite(), mem, sn, sn', o.id);
  }

  lemma {:induction false} IndexAfterErase(mem: seq<Order>, sn: BookState, sn': BookState, k: nat)
    requires k < |sn.contents| && UniqueIds(sn.contents) && IndexInv(mem, sn) && sn'.nextHandle == sn.nextHandle
    requires sn'.lookup == sn.lookup - {sn.contents[k].id} && sn'.contents == Drop(sn.contents, k)
    ensures IndexInv(mem, sn')
  {
    hide HasId, UniqueIds, Drop;
    forall x ensures x in sn'.lookup <==> HasId(sn'.contents, x) {
      WithoutIds(sn.contents, k, x);
    }
  }

  lemma {:induction false} OfSymbolDropped(book: Book, k: nat, symbol: Symbol)
    requires k < |book| && OfSymbol(book, symbol)
    ensures OfSymbol(Drop(book, k), symbol)
  {
  }

  lemma {:induction false} ErasedInv(symbol: Symbol, mem: seq<Order>, sn: BookState, id: OrderID)
    requires BookInv(symbol, mem, sn) && id in sn.lookup
    ensures var sn' := Erased(mem, sn, id);
      && BookInv(symbol, mem, sn')
      && sn'.lookup == sn.lookup - {id} && sn'.contents == Without(sn.contents, id) && IndexOf(sn.contents, id) >= 0
  {
    hide Place, Rank, PositionOf, IndexOf, Erase, SideInv, IndexInv, HasId, UniqueIds, OfSymbol, Drop, Without;
    IteratorIsRight(symbol, mem, sn, id);
    var k, sn' := IndexOf(sn.contents, id), Erased(mem, sn, id);
    Locate(symbol, mem, sn, k);
    WithoutIds(sn.contents, k, id);
    OwnSideAfterErase(sn.Levels(sn.contents[k].side), mem, sn, sn', k);
    OtherSideAfterErase(sn.Levels(sn.contents[k].side.Opposite()), mem, sn, sn', k);
    IndexAfterErase(mem, sn, sn', k);
    OfSymbolDropped(sn.contents, k, symbol);
  }

  // ---------------------------------------------------------------- writing orders in place

  /** Slots no index entry names may be written freely. */
  lemma {:induction false} FrameInv(symbol: Symbol, mem: seq<Order>, mem': seq<Order>, sn: BookState)
    requires BookInv(symbol, mem, sn) && |mem'| == |mem|
    requires forall id :: id in sn.lookup ==> mem'[sn.lookup[id].slot] == mem[sn.lookup[id].slot]
    ensures BookInv(symbol, mem', sn)
  {
    hide Couples, View;
    forall side: Side ensures SideInv(sn.Levels(side), side, mem', sn) {
      var l := sn.Levels(side);
      assert forall i, j :: 0 <= i < |l| && 0 <= j < |l[i].items| ==> NodeIndexed(l[i].items[j], mem, sn.lookup);
      ViewFrame(l, mem, mem');
    }
    assert SideInv(sn.Levels(Buy), Buy, mem', sn) && SideInv(sn.Levels(Sell), Sell, mem', sn);
  }

  /** An order's fill may be written in place, in the pool and in the naive book alike. */
  lemma {:induction false} FilledInv(symbol: Symbol, mem: seq<Order>, sn: BookState, k: nat, o: Order)
    requires BookInv(symbol, mem, sn) && k < |sn.contents| && o == sn.contents[k].(filled := o.filled)
    ensures var id := sn.contents[k].id;
      && id in sn.lookup && sn.lookup[id].slot < |mem| && mem[sn.lookup[id].slot] == sn.contents[k]
      && BookInv(symbol, mem[sn.lookup[id].slot := o], sn.(contents := sn.contents[k := o]))
  {
    hide Place, Rank, Couples, View, HasId;
    Locate(symbol, mem, sn, k);
    var p, side := sn.lookup[o.id].slot, o.side;
    var mem', sn' := mem[p := o], sn.(contents := sn.contents[k := o]);
    FilledOwnSide(sn.Levels(side), mem, sn, k, o);
    FilledOtherSide(sn.Levels(side.Opposite()), mem, sn, k, o);
    forall x ensures HasId(sn'.contents, x) <==> HasId(sn.contents, x) {
      FilledIds(sn.contents, k, o, x);
    }
    assert IndexInv(mem', sn');
    assert SideInv(sn'.Levels(side), side, mem', sn');
    assert SideInv(sn'.Levels(side.Opposite()), side.Opposite(), mem', sn');
  }

  lemma {:induction false} FilledIds(book: Book, k: nat, o: Order, id: OrderID)
    requires k < |book| && o.id == book[k].id
    ensures HasId(book[k := o], id) <==> HasId(book, id)
  {
    if HasId(book, id) {
      var m :| 0 <= m < |book| && book[m].id == id;
      assert book[k := o][m].id == id;
    }
  }

  lemma {:induction false} FilledOwnSide(l: Ladder<Node>, mem: seq<Order>, sn: BookState, k: nat, o: Order)
    requires k < |sn.contents| && o == sn.contents[k].(filled := o.filled) && UniqueIds(sn.contents)
    requires SideInv(l, o.side, mem, sn) && IndexInv(mem, sn) && o.id in sn.lookup
    requires var p, i, j := sn.lookup[o.id].slot, Place(l, o.price), Rank(sn.contents, k);
      && HasPrice(l, o.price) && j < |l[i].items| && l[i].items[j].slot == p && mem[p] == sn.contents[k]
    ensures SideInv(l, o.side, mem[sn.lookup[o.id].slot := o], sn.(contents := sn.contents[k := o]))
  {
    hide Place, Rank, Couples, View;
    var p, i, j := sn.lookup[o.id].slot, Place(l, o.price), Rank(sn.contents, k);
    SideAscending(l, o.side, mem, sn);
    forall a, b | 0 <= a < |l| && 0 <= b < |l[a].items| && l[a].items[b].slot == p ensures a == i && b == j {
      NodeOrder(l, o.side, mem, sn, a, b);
      NodeOrder(l, o.side, mem, sn, i, j);
      SameEntry(View(l, mem), sn.contents, o.side, i, j, b);
    }
    ViewPut(l, mem, i, j, o);
    ViewPlace(l, mem, o.price);
    PutCouples(View(l, mem), sn.contents, k, o);
  }

  lemma {:induction false} FilledOtherSide(l: Ladder<Node>, mem: seq<Order>, sn: BookState, k: nat, o: Order)
    requires k < |sn.contents| && o == sn.contents[k].(filled := o.filled)
    requires SideInv(l, o.side.Opposite(), mem, sn) && IndexInv(mem, sn) && o.id in sn.lookup
    requires mem[sn.lookup[o.id].slot] == sn.contents[k]
    ensures SideInv(l, o.side.Opposite(), mem[sn.lookup[o.id].slot := o], sn.(contents := sn.contents[k := o]))
  {
    hide Place, Couples, View;
    var p, side := sn.lookup[o.id].slot, o.side.Opposite();
    forall a, b | 0 <= a < |l| && 0 <= b < |l[a].items| ensures l[a].items[b].slot != p {
      NodeOrder(l, side, mem, sn, a, b);
    }
    ViewFrame(l, mem, mem[p := o]);
    PutElsewhere(View(l, mem), sn.contents, k, o, side);
  }

  // ---------------------------------------------------------------- the best orders, and undoing an addition

  /** The head of the last (bids) or first (asks) level is the order a linear scan would choose. */
  lemma {:induction false} BestIsFirst(symbol: Symbol, mem: seq<Order>, sn: BookState, side: Side, up: bool)
    requires BookInv(symbol, mem, sn)
    ensures var l, k := sn.Levels(side), First(sn.contents, side, up);
      && (l == [] <==> k == -1)
      && (l != [] ==>
            var i := if up then 0 else |l| - 1;
            && l[i].items != [] && sn.contents[k].id in sn.lookup
            && l[i].items[0].slot == sn.lookup[sn.contents[k].id].slot < |mem|
            && mem[l[i].items[0].slot] == sn.contents[k])
  {
    hide Place, Rank, View, First, Couples;
    var l, k := sn.Levels(side), First(sn.contents, side, up);
    EndIsFirst(View(l, mem), sn.contents, side, up);
    if l != [] {
      Locate(symbol, mem, sn, k);
      SideAscending(l, side, mem, sn);
      ViewPlace(l, mem, sn.contents[k].price);
    }
  }

  /** Adding a fresh order and cancelling it restores ladders, index and naive book exactly. */
  lemma {:induction false} CancelUndoesAdd(symbol: Symbol, mem: seq<Order>, sn: BookState, p: Slot)
    requires BookInv(symbol, mem, sn) && p < |mem| && mem[p].symbol == symbol && !HasId(sn.contents, mem[p].id)
    ensures mem[p].id in Added(mem, sn, p).lookup
    ensures Erased(mem, Added(mem, sn, p), mem[p].id) == sn.(nextHandle := sn.nextHandle + 1)
  {
    hide Place, PositionOf, IndexOf, Append, Erase, BookInv, HasId, UniqueIds, Drop, Without;
    var o, sn' := mem[p], Added(mem, sn, p);
    var l, n := sn.Levels(o.side), Node(sn.nextHandle, p);
    LevelsAscend(symbol, mem, sn, o.side);
    EraseUndoesAppend(l, o.price, n);
    NewNodeIsLast(symbol, mem, sn, o.side, o.price, n);
    AddedInv(symbol, mem, sn, p);
    IndexIsIds(symbol, mem, sn, o.id);
    IndexIsIds(symbol, mem, sn', o.id);
    WithoutLast(sn.contents, o);
    assert sn'.lookup - {o.id} == sn.lookup;
  }

  lemma {:induction false} LevelsAscend(symbol: Symbol, mem: seq<Order>, sn: BookState, side: Side)
    requires BookInv(symbol, mem, sn)
    ensures Ascending(sn.Levels(side))
    ensures forall i :: 0 <= i < |sn.Levels(side)| ==> sn.Levels(side)[i].items != []
  {
    hide SideInv, IndexInv;
    SideAscending(sn.Levels(side), side, mem, sn);
  }

  lemma {:induction false} WithoutLast(book: Book, o: Order)
    requires UniqueIds(book + [o])
    ensures Without(book + [o], o.id) == book
  {
    hide UniqueIds, Without;
    var book' := book + [o];
    assert book'[|book|] == o;
    WithoutIds(book', |book|, o.id);
    assert Drop(book', |book|) == book;
  }

  /** Handles in a ladder are older than the next one, so the new node is found where it was appended. */
  lemma {:induction false} NewNodeIsLast(symbol: Symbol, mem: seq<Order>, sn: BookState, side: Side, price: Price,
      n: Node)
    requires BookInv(symbol, mem, sn) && n.handle == sn.nextHandle
    ensures var l' := Append(sn.Levels(side), price, n);
      && HasPrice(l', price) && l'[Place(l', price)].items != []
      && PositionOf(l'[Place(l', price)].items, n.handle) == |l'[Place(l', price)].items| - 1
  {
    hide Place, PositionOf, View, Couples, Append, UniqueIds, HasId, OfSymbol;
    var l, l' := sn.Levels(side), Append(sn.Levels(side), price, n);
    SideAscending(l, side, mem, sn);
    EraseUndoesAppend(l, price, n);
    var i := Place(l', price);
    forall m | 0 <= m < |l'[i].items| - 1 ensures l'[i].items[m].handle != n.handle {
      AppendTail(l, price, n, m);
      assert NodeIndexed(l[Place(l, price)].items[m], mem, sn.lookup);
    }
  }

  lemma {:induction false} AppendTail(l: Ladder<Node>, price: Price, n: Node, m: nat)
    requires Ascending(l)
    requires var l' := Append(l, price, n); HasPrice(l', price) && m < |l'[Place(l', price)].items| - 1
    ensures var l' := Append(l, price, n);
      && HasPrice(l, price) && m < |l[Place(l, price)].items|
      && l'[Place(l', price)].items[m] == l[Place(l, price)].items[m]
  {
    hide Place;
    var l', i := Append(l, price, n), Place(l, price);
    assert Ascending(l') && l'[i].price == price;
    PlaceIs(l', i);
  }
}
