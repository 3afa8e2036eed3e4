/** The fill-or-kill scan as a loop over the ladder: what holds after each order it has subtracted. */
module ScanLoop {
  import opened Types
  import opened NaiveBook
  import opened FillOrKill
  import opened Ladder
  import opened BookModel

  /** The orders seen and those to come make up the scan's queue, the needed quantity is what is missing
      in machine arithmetic, and no run seen so far adds up. */
  predicate ScanInv(queue: Book, seen: Book, rest: Book, o: Order, needed: Quantity) {
    && Open(rest)
    && Reach(queue, o) == seen + Reach(rest, o)
    && needed == (o.quantity - Total(seen)) % WRAP
    && !SumsTo(seen, o.quantity)
  }

  /** What the ladder the scan walks looks like, order by order. */
  lemma {:induction false} ScanView(symbol: Symbol, mem: seq<Order>, sn: BookState, o: Order)
    requires BookInv(symbol, mem, sn) && Open(sn.contents)
    ensures var l := sn.Levels(o.side.Opposite());
      && InPool(l, |mem|)
      && var v := View(l, mem);
      && Flatten(v) == ScanOrder(sn.contents, o) && Open(Flatten(v))
      && forall i :: 0 <= i < |l| ==>
           && v[i].items != []
           && forall j :: 0 <= j < |v[i].items| ==> v[i].items[j].price == l[i].price
  {
    hide Place, First, Flatten, Queue;
    var side := o.side.Opposite();
    var l := sn.Levels(side);
    var v := View(l, mem);
    WalkIsQueue(v, sn.contents, side);
    QueueIsSorted(sn.contents, side, true);
    forall k | 0 <= k < |Flatten(v)| ensures Flatten(v)[k].IsOpen() {
      assert Flatten(v)[k] in Queue(sn.contents, side, true);
    }
    forall i, j | 0 <= i < |l| && 0 <= j < |v[i].items| ensures v[i].items[j].price == l[i].price {
      AtMembers(sn.contents, side, l[i].price, v[i].items[j]);
    }
  }

  lemma {:induction false} FlattenNothing<T>(l: Ladder<T>)
    requires l == []
    ensures Flatten(l) == []
  {
  }

  lemma {:induction false} StartScan(queue: Book, o: Order)
    requires Open(queue)
    ensures ScanInv(queue, [], queue, o, o.quantity)
  {
    assert [] + Reach(queue, o) == Reach(queue, o);
    assert Total([]) == 0;
  }

  lemma {:induction false} SumsToSnoc(seen: Book, x: Order, quantity: Quantity)
    ensures SumsTo(seen + [x], quantity) <==> SumsTo(seen, quantity) || Total(seen + [x]) % WRAP == quantity
  {
    hide Total;
    var seen' := seen + [x];
    assert seen'[..|seen'|] == seen';
    assert forall n :: 0 <= n <= |seen| ==> seen'[..n] == seen[..n];
    if SumsTo(seen, quantity) {
      var n :| 1 <= n <= |seen| && Total(seen[..n]) % WRAP == quantity;
      assert Total(seen'[..n]) % WRAP == quantity;
    }
    if Total(seen') % WRAP == quantity {
      assert Total(seen'[..|seen'|]) % WRAP == quantity;
    }
  }

  lemma {:induction false} SumsToPrefix(seen: Book, tail: Book, quantity: Quantity)
    requires SumsTo(seen, quantity)
    ensures SumsTo(seen + tail, quantity)
  {
    hide Total;
    var n :| 1 <= n <= |seen| && Total(seen[..n]) % WRAP == quantity;
    assert (seen + tail)[..n] == seen[..n];
  }

  lemma {:induction false} ModSub(a: int, b: int)
    ensures (a % WRAP - b) % WRAP == (a - b) % WRAP
  {
  }

  lemma {:induction false} ModZero(q: Quantity, total: int)
    ensures (q - total) % WRAP == 0 <==> total % WRAP == q
  {
  }

  /** Subtracting the next eligible order either lands on zero, and then the scan's answer is yes, or
      carries the invariant on. */
  lemma {:induction false} ScanStep(queue: Book, seen: Book, x: Order, rest: Book, o: Order, needed: Quantity)
    requires ScanInv(queue, seen, [x] + rest, o, needed) && Crosses(o.side, FillOrKill, o.price, x.price)
    ensures var needed' := Sub64(needed, x.RemainingQty());
      && (needed' == 0 ==> SumsTo(Reach(queue, o), o.quantity))
      && (needed' != 0 ==> ScanInv(queue, seen + [x], rest, o, needed'))
  {
    var tail, seen' := [x] + rest, seen + [x];
    assert tail[0] == x && tail[1..] == rest;
    assert x.IsOpen();
    assert Open(rest) by {
      assert forall k :: 0 <= k < |rest| ==> rest[k] == tail[k + 1];
    }
    assert Reach(queue, o) == seen' + Reach(rest, o) by {
      assert Reach(tail, o) == [x] + Reach(rest, o);
      assert seen + ([x] + Reach(rest, o)) == seen' + Reach(rest, o);
    }
    TotalConcat(seen, [x]);
    TotalOfOne(x);
    hide Reach, Total, SumsTo;
    NoWrap(x, 0);
    ModSub(o.quantity - Total(seen), x.Left());
    ModZero(o.quantity, Total(seen'));
    SumsToSnoc(seen, x, o.quantity);
    if Total(seen') % WRAP == o.quantity {
      SumsToPrefix(seen', Reach(rest, o), o.quantity);
    }
  }

  /** When nothing eligible comes next the scan's answer is no. */
  lemma {:induction false} ScanEnds(queue: Book, seen: Book, rest: Book, o: Order, needed: Quantity)
    requires ScanInv(queue, seen, rest, o, needed)
    requires rest == [] || !Crosses(o.side, FillOrKill, o.price, rest[0].price)
    ensures !SumsTo(Reach(queue, o), o.quantity)
  {
    assert seen + [] == seen;
  }

  /** What is left of a level and of the levels behind it, taken one order further. */
  lemma {:induction false} HeadOfRest(items: Book, j: nat, tail: Book)
    requires j < |items|
    ensures items[j..] + tail == [items[j]] + (items[j + 1..] + tail)
  {
  }
}
