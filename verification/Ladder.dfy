/** One side of a price-level book: levels in ascending price, each a list in arrival order.  The same
    operations serve the program's ladder of list nodes and the ladder of orders it stands for. */
module Ladder {
  import opened Types
  import opened NaiveBook

  datatype Level<T> = Level(price: Price, items: seq<T>)

  type Ladder<T> = seq<Level<T>>

  predicate Ascending<T>(l: Ladder<T>) {
    forall i, j :: 0 <= i < j < |l| ==> l[i].price < l[j].price
  }

  /** The position of a price among the keys: the first level not below it. */
  function Place<T>(l: Ladder<T>, price: Price): (i: nat)
    ensures i <= |l|
    ensures forall k :: 0 <= k < i ==> l[k].price < price
    ensures i < |l| ==> l[i].price >= price
  {
    if l == [] || l[0].price >= price then 0 else 1 + Place(l[1..], price)
  }

  predicate HasPrice<T>(l: Ladder<T>, price: Price) {
    Place(l, price) < |l| && l[Place(l, price)].price == price
  }

  lemma {:induction false} PlaceIs<T>(l: Ladder<T>, i: nat)
    requires Ascending(l) && i < |l|
    ensures Place(l, l[i].price) == i
  {
    hide Place;
  }

  /** Push an item back at a price, making the level when there is none. */
  function Append<T>(l: Ladder<T>, price: Price, x: T): Ladder<T> {
    var i := Place(l, price);
    if HasPrice(l, price) then l[i := Level(price, l[i].items + [x])]
    else l[..i] + [Level(price, [x])] + l[i..]
  }

  /** Remove item j of level i, and the level with it when that was its last. */
  function Erase<T>(l: Ladder<T>, i: nat, j: nat): Ladder<T>
    requires i < |l| && j < |l[i].items|
  {
    if |l[i].items| == 1 then Drop(l, i) else l[i := Level(l[i].price, Drop(l[i].items, j))]
  }

  function Put<T>(l: Ladder<T>, i: nat, j: nat, x: T): Ladder<T>
    requires i < |l| && j < |l[i].items|
  {
    l[i := Level(l[i].price, l[i].items[j := x])]
  }

  lemma {:induction false} InsertedAt<T>(s: seq<T>, i: nat, x: T)
    requires i <= |s|
    ensures var r := s[..i] + [x] + s[i..];
      && |r| == |s| + 1
      && forall m {:trigger r[m]} :: 0 <= m < |r| ==> r[m] == if m < i then s[m] else if m == i then x else s[m - 1]
  {
  }

  lemma {:induction false} AppendShape<T>(l: Ladder<T>, price: Price, x: T)
    requires Ascending(l) && !HasPrice(l, price)
    ensures var i, l' := Place(l, price), Append(l, price, x);
      && |l'| == |l| + 1
      && forall m {:trigger l'[m]} :: 0 <= m < |l'| ==>
           l'[m] == if m < i then l[m] else if m == i then Level(price, [x]) else l[m - 1]
    ensures Ascending(Append(l, price, x))
  {
    hide Place;
    var i, l' := Place(l, price), Append(l, price, x);
    InsertedAt(l, i, Level(price, [x]));
    forall a, b | 0 <= a < b < |l'| ensures l'[a].price < l'[b].price {
    }
  }

  lemma {:induction false} DroppedAt<T>(s: seq<T>, i: nat)
    requires i < |s|
    ensures |Drop(s, i)| == |s| - 1
    ensures forall m {:trigger Drop(s, i)[m]} :: 0 <= m < |s| - 1 ==> Drop(s, i)[m] == s[if m >= i then m + 1 else m]
  {
  }

  lemma {:induction false} EraseShape<T>(l: Ladder<T>, i: nat, j: nat)
    requires i < |l| && j < |l[i].items| && Ascending(l)
    ensures var l' := Erase(l, i, j);
      && Ascending(l')
      && if |l[i].items| == 1
         then |l'| == |l| - 1 && forall m {:trigger l'[m]} :: 0 <= m < |l'| ==> l'[m] == l[if m >= i then m + 1 else m]
         else |l'| == |l| && forall m {:trigger l'[m]} :: 0 <= m < |l'| ==>
                l'[m] == if m == i then Level(l[i].price, Drop(l[i].items, j)) else l[m]
  {
    hide Drop, Ascending;
    var l' := Erase(l, i, j);
    if |l[i].items| == 1 {
      DroppedAt(l, i);
    }
    assert Ascending(l') by {
      PricesAscend(l, l', i);
    }
  }

  /** A ladder without one of its levels, or with another list in it, still ascends. */
  lemma {:induction false} PricesAscend<T>(l: Ladder<T>, l': Ladder<T>, i: nat)
    requires Ascending(l)
    requires |l'| == |l| - 1 || |l'| == |l|
    requires forall m {:trigger l'[m]} :: 0 <= m < |l'| ==>
      l'[m].price == l[if |l'| < |l| && m >= i then m + 1 else m].price
    ensures Ascending(l')
  {
    forall a, b | 0 <= a < b < |l'| ensures l'[a].price < l'[b].price {
    }
  }

  lemma {:induction false} DropInserted<T>(s: seq<T>, i: nat, x: T)
    requires i <= |s|
    ensures Drop(s[..i] + [x] + s[i..], i) == s
  {
  }

  /** Appending at a price and erasing what was appended gives back the very same ladder. */
  lemma {:induction false} EraseUndoesAppend<T>(l: Ladder<T>, price: Price, x: T)
    requires Ascending(l) && forall i :: 0 <= i < |l| ==> l[i].items != []
    ensures var l' := Append(l, price, x);
      && HasPrice(l', price)
      && var i := Place(l', price);
      && l'[i].items != [] && l'[i].items[|l'[i].items| - 1] == x
      && Erase(l', i, |l'[i].items| - 1) == l
  {
    hide Place, Ascending, Drop;
    var i, l' := Place(l, price), Append(l, price, x);
    AppendAscends(l, price, x);
    PlaceIs(l', i);
    if HasPrice(l, price) {
      assert Drop(l[i].items + [x], |l[i].items|) == l[i].items by {
        DropInserted(l[i].items, |l[i].items|, x);
        assert l[i].items[..|l[i].items|] + [x] + l[i].items[|l[i].items|..] == l[i].items + [x];
      }
    } else {
      DropInserted(l, i, Level(price, [x]));
    }
  }

  lemma {:induction false} AppendAscends<T>(l: Ladder<T>, price: Price, x: T)
    requires Ascending(l)
    ensures var i, l' := Place(l, price), Append(l, price, x);
      Ascending(l') && i < |l'| && l'[i].price == price
  {
    hide Place;
    if !HasPrice(l, price) {
      hide Append;
      AppendShape(l, price, x);
    }
  }

  // ---------------------------------------------------------------- a ladder of orders and a naive book

  /** The ladder is the naive book's orders of that side, grouped by price in arrival order. */
  predicate Couples(l: Ladder<Order>, book: Book, side: Side) {
    && Ascending(l)
    && (forall i :: 0 <= i < |l| ==> l[i].items != [] && l[i].items == At(book, side, l[i].price))
    && (forall k :: 0 <= k < |book| && book[k].side == side ==> HasPrice(l, book[k].price))
  }

  /** How many orders of its own side and price arrived before order k. */
  function Rank(book: Book, k: nat): nat
    requires k < |book|
  {
    |At(book[..k], book[k].side, book[k].price)|
  }

  lemma {:induction false} AtRank(book: Book, k: nat, o: Order, side: Side, price: Price)
    requires k < |book| && o.side == book[k].side && o.price == book[k].price
    ensures var level, j := At(book, side, price), Rank(book, k);
      if side == o.side && price == o.price
      then j < |level| && level[j] == book[k]
           && At(Drop(book, k), side, price) == Drop(level, j) && At(book[k := o], side, price) == level[j := o]
      else At(Drop(book, k), side, price) == level && At(book[k := o], side, price) == level
  {
    hide Filter;
    var f := IsAt(side, price);
    FilterAround(book, k, o, f);
    var pre, post := Filter(book[..k], f), Filter(book[k + 1..], f);
    if side == o.side && price == o.price {
      assert At(book, side, price) == pre + [book[k]] + post;
      assert Drop(pre + [book[k]] + post, |pre|) == pre + post;
      assert (pre + [book[k]] + post)[|pre| := o] == pre + [o] + post;
    } else {
      assert pre + [] + post == pre + post;
    }
  }

  lemma {:induction false} AppendToLevel(l: Ladder<Order>, book: Book, o: Order)
    requires Couples(l, book, o.side) && HasPrice(l, o.price)
    ensures Couples(Append(l, o.price, o), book + [o], o.side)
  {
    hide Filter, Place, At;
    var i, l', book' := Place(l, o.price), Append(l, o.price, o), book + [o];
    assert Ascending(l');
    forall m | 0 <= m < |l'| ensures l'[m].items != [] && l'[m].items == At(book', o.side, l'[m].price) {
      AtAppended(book, o, o.side, l'[m].price);
    }
    forall k | 0 <= k < |book'| && book'[k].side == o.side ensures HasPrice(l', book'[k].price) {
      assert HasPrice(l, book'[k].price);
      PlaceIs(l', Place(l, book'[k].price));
    }
  }

  lemma {:induction false} AppendNewLevel(l: Ladder<Order>, book: Book, o: Order)
    requires Couples(l, book, o.side) && !HasPrice(l, o.price)
    ensures Couples(Append(l, o.price, o), book + [o], o.side)
  {
    hide Filter, Place, At, Append;
    var i, l', book' := Place(l, o.price), Append(l, o.price, o), book + [o];
    AppendShape(l, o.price, o);
    NoLevelNoOrders(l, book, o.side, o.price);
    forall m | 0 <= m < |l'| ensures l'[m].items != [] && l'[m].items == At(book', o.side, l'[m].price) {
      AtAppended(book, o, o.side, l'[m].price);
    }
    forall k | 0 <= k < |book'| && book'[k].side == o.side ensures HasPrice(l', book'[k].price) {
      if k == |book| {
        PlaceIs(l', i);
      } else {
        var p := Place(l, book[k].price);
        PlaceIs(l', if p < i then p else p + 1);
      }
    }
  }

  lemma {:induction false} AppendElsewhere(l: Ladder<Order>, book: Book, side: Side, o: Order)
    requires Couples(l, book, side) && o.side != side
    ensures Couples(l, book + [o], side)
  {
    hide Filter, Place, At;
    forall m | 0 <= m < |l| ensures l[m].items == At(book + [o], side, l[m].price) {
      AtAppended(book, o, side, l[m].price);
    }
  }

  lemma {:induction false} AppendCouples(l: Ladder<Order>, book: Book, side: Side, o: Order)
    requires Couples(l, book, side)
    ensures o.side == side ==> Couples(Append(l, o.price, o), book + [o], side)
    ensures o.side != side ==> Couples(l, book + [o], side)
  {
    hide Couples, Append, HasPrice;
    if o.side != side {
      AppendElsewhere(l, book, side, o);
    } else if HasPrice(l, o.price) {
      AppendToLevel(l, book, o);
    } else {
      AppendNewLevel(l, book, o);
    }
  }

  lemma {:induction false} NoLevelNoOrders(l: Ladder<Order>, book: Book, side: Side, price: Price)
    requires Couples(l, book, side) && !HasPrice(l, price)
    ensures At(book, side, price) == []
  {
    FilterNone(book, IsAt(side, price));
  }

  lemma {:induction false} AtAppended(book: Book, o: Order, side: Side, price: Price)
    ensures At(book + [o], side, price)
        == if o.side == side && o.price == price then At(book, side, price) + [o] else At(book, side, price)
  {
    FilterConcat(book, [o], IsAt(side, price));
    assert [o][1..] == [];
  }

  /** Where order k sits in the ladder. */
  lemma {:induction false} PlaceOfOrder(l: Ladder<Order>, book: Book, k: nat)
    requires k < |book| && Couples(l, book, book[k].side)
    ensures var i, j := Place(l, book[k].price), Rank(book, k);
      i < |l| && l[i].price == book[k].price && j < |l[i].items| && l[i].items[j] == book[k]
  {
    hide Place, Filter;
    AtRank(book, k, book[k], book[k].side, book[k].price);
  }

  lemma {:induction false} EraseElsewhere(l: Ladder<Order>, book: Book, k: nat, side: Side)
    requires k < |book| && Couples(l, book, side) && book[k].side != side
    ensures Couples(l, Drop(book, k), side)
  {
    hide Place, Filter, Rank;
    forall m | 0 <= m < |l| ensures l[m].items == At(Drop(book, k), side, l[m].price) {
      AtRank(book, k, book[k], side, l[m].price);
    }
  }

  lemma {:induction false} EraseCouples(l: Ladder<Order>, book: Book, k: nat)
    requires k < |book| && Couples(l, book, book[k].side)
    ensures var i, j := Place(l, book[k].price), Rank(book, k);
      i < |l| && j < |l[i].items| && Couples(Erase(l, i, j), Drop(book, k), book[k].side)
  {
    hide Place, Filter, Rank, At, Erase;
    var o, book', side := book[k], Drop(book, k), book[k].side;
    PlaceOfOrder(l, book, k);
    var i, j := Place(l, o.price), Rank(book, k);
    var l', gone := Erase(l, i, j), |l[i].items| == 1;
    EraseShape(l, i, j);
    forall m | 0 <= m < |l'| ensures l'[m].items != [] && l'[m].items == At(book', side, l'[m].price) {
      AtRank(book, k, o, side, l'[m].price);
      assert l'[m].price == l[if gone && m >= i then m + 1 else m].price;
    }
    forall m | 0 <= m < |book'| && book'[m].side == side ensures HasPrice(l', book'[m].price) {
      assert book'[m] == book[if m < k then m else m + 1];
      EraseKeepsLevel(l, book, k, m);
    }
  }

  /** A level vanishes only when the naive book holds no other order of its price. */
  lemma {:induction false} EraseKeepsLevel(l: Ladder<Order>, book: Book, k: nat, m: nat)
    requires k < |book| && Couples(l, book, book[k].side) && m < |book| - 1 && Drop(book, k)[m].side == book[k].side
    ensures var i, j := Place(l, book[k].price), Rank(book, k);
      i < |l| && j < |l[i].items| && HasPrice(Erase(l, i, j), Drop(book, k)[m].price)
  {
    hide Place, Filter, Rank, At, Erase;
    var o, o' := book[k], Drop(book, k)[m];
    PlaceOfOrder(l, book, k);
    var i, j := Place(l, o.price), Rank(book, k);
    var l', gone := Erase(l, i, j), |l[i].items| == 1;
    EraseShape(l, i, j);
    assert o' == book[if m < k then m else m + 1];
    var p := Place(l, o'.price);
    assert l[p].price == o'.price;
    if gone {
      OrderHasLevel(Drop(book, k), m);
      AtRank(book, k, o, o.side, o'.price);
      assert p != i;
    }
    PlaceIs(l', if gone && p > i then p - 1 else p);
  }

  lemma {:induction false} OrderHasLevel(book: Book, m: nat)
    requires m < |book|
    ensures At(book, book[m].side, book[m].price) != []
  {
    AtRank(book, m, book[m], book[m].side, book[m].price);
  }

  lemma {:induction false} PutElsewhere(l: Ladder<Order>, book: Book, k: nat, o: Order, side: Side)
    requires k < |book| && Couples(l, book, side) && o.side == book[k].side != side && o.price == book[k].price
    ensures Couples(l, book[k := o], side)
  {
    hide Place, Filter, Rank;
    forall m | 0 <= m < |l| ensures l[m].items == At(book[k := o], side, l[m].price) {
      AtRank(book, k, o, side, l[m].price);
    }
  }

  lemma {:induction false} PutCouples(l: Ladder<Order>, book: Book, k: nat, o: Order)
    requires k < |book| && Couples(l, book, o.side) && o.side == book[k].side && o.price == book[k].price
    ensures var i, j := Place(l, o.price), Rank(book, k);
      i < |l| && j < |l[i].items| && Couples(Put(l, i, j, o), book[k := o], o.side)
  {
    hide Place, Filter, Rank;
    PlaceOfOrder(l, book, k);
    var i, j := Place(l, o.price), Rank(book, k);
    var l' := Put(l, i, j, o);
    forall m | 0 <= m < |l'| ensures l'[m].items == At(book[k := o], o.side, l'[m].price) {
      AtRank(book, k, o, o.side, l'[m].price);
    }
    var book' := book[k := o];
    forall m | 0 <= m < |book'| && book'[m].side == o.side ensures HasPrice(l', book'[m].price) {
      PlaceIs(l', Place(l, book[m].price));
    }
  }

  /** The end of the ladder holds what the linear scan would choose. */
  lemma {:induction false} EndIsFirst(l: Ladder<Order>, book: Book, side: Side, up: bool)
    requires Couples(l, book, side)
    ensures l == [] <==> First(book, side, up) == -1
    ensures l != [] ==>
      var i, k := if up then 0 else |l| - 1, First(book, side, up);
      k >= 0 && Place(l, book[k].price) == i && Rank(book, k) == 0 && l[i].items[0] == book[k]
  {
    hide Place, Filter, First;
    var k := First(book, side, up);
    if k >= 0 {
      var i := if up then 0 else |l| - 1;
      assert HasPrice(l, book[k].price);
      FilterNone(book[..k], IsAt(side, book[k].price));
      EmptyAt(book[..k], side, book[k].price);
      PlaceOfOrder(l, book, k);
      var o := l[i].items[0];
      AtMembers(book, side, l[i].price, o);
      var m :| 0 <= m < |book| && book[m] == o;
      assert !Before(up, l[i].price, book[k].price);
    } else if l != [] {
      AtMembers(book, side, l[0].price, l[0].items[0]);
    }
  }

  lemma {:induction false} EmptyAt(book: Book, side: Side, price: Price)
    requires Filter(book, IsAt(side, price)) == []
    ensures |At(book, side, price)| == 0
  {
  }

  lemma {:induction false} AtMembers(book: Book, side: Side, price: Price, o: Order)
    ensures o in At(book, side, price) <==> o in book && o.side == side && o.price == price
  {
    FilterMembers(book, IsAt(side, price), o);
  }

  // ---------------------------------------------------------------- walking a ladder

  function Flatten<T>(l: Ladder<T>): seq<T> {
    if l == [] then [] else l[0].items + Flatten(l[1..])
  }

  lemma {:induction false} FlattenConcat<T>(a: Ladder<T>, b: Ladder<T>)
    ensures Flatten(a + b) == Flatten(a) + Flatten(b)
  {
    if a == [] {
      assert a + b == b;
    } else {
      assert (a + b)[1..] == a[1..] + b;
      FlattenConcat(a[1..], b);
    }
  }

  lemma {:induction false} FlattenStep<T>(l: Ladder<T>)
    requires l != []
    ensures Flatten(l) == l[0].items + Flatten(l[1..])
  {
  }

  lemma {:induction false} FlattenErase<T>(l: Ladder<T>)
    requires l != [] && l[0].items != []
    ensures Flatten(l) == [l[0].items[0]] + Flatten(Erase(l, 0, 0))
  {
    hide Flatten;
    var l', items := Erase(l, 0, 0), l[0].items;
    FlattenStep(l);
    if |items| == 1 {
      assert l' == l[1..] && items == [items[0]];
    } else {
      FlattenStep(l');
      assert l'[1..] == l[1..];
      assert items == [items[0]] + Drop(items, 0);
    }
  }

  /** Walking the levels upward, and each level from its head, is repeated linear selection. */
  lemma {:induction false} WalkIsQueue(l: Ladder<Order>, book: Book, side: Side)
    requires Couples(l, book, side)
    ensures Flatten(l) == Queue(book, side, true)
    decreases |book|
  {
    EndIsFirst(l, book, side, true);
    if l != [] {
      hide First, Place, Couples, Rank;
      var k := First(book, side, true);
      EraseCouples(l, book, k);
      WalkIsQueue(Erase(l, 0, 0), Drop(book, k), side);
      CouplesNonempty(l, book, side);
      FlattenErase(l);
    }
  }

  lemma {:induction false} CouplesNonempty(l: Ladder<Order>, book: Book, side: Side)
    requires Couples(l, book, side) && l != []
    ensures l[0].items != []
  {
  }
}
