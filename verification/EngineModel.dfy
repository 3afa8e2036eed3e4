/** Who owns each slot of the pool, across all books: the invariant of the matching engine's data and how
    each elementary step keeps it. */
module EngineModel {
  import opened Types
  import opened NaiveBook
  import opened SweepLaws
  import opened Ladder
  import opened BookModel

  /** A slot is on the free stack, held by the call in progress, never to be returned, or resting. */
  datatype Owner = Free | InHand | Unreturned | RestsIn(symbol: Symbol, id: OrderID)

  predicate FreeList(free: seq<Slot>, owner: seq<Owner>) {
    && (forall i, j :: 0 <= i < j < |free| ==> free[i] != free[j])
    && (forall i :: 0 <= i < |free| ==> free[i] < |owner| && owner[free[i]].Free?)
    && (forall p :: 0 <= p < |owner| && owner[p].Free? ==> p in free)
  }

  predicate RestingSlots(owner: seq<Owner>, books: map<Symbol, BookState>) {
    && (forall s, id :: s in books && id in books[s].lookup ==>
          books[s].lookup[id].slot < |owner| && owner[books[s].lookup[id].slot] == RestsIn(s, id))
    && (forall p :: 0 <= p < |owner| && owner[p].RestsIn? ==>
          && owner[p].symbol in books && owner[p].id in books[owner[p].symbol].lookup
          && books[owner[p].symbol].lookup[owner[p].id].slot == p)
  }

  predicate BooksInv(mem: seq<Order>, books: map<Symbol, BookState>) {
    forall s :: s in books ==> BookInv(s, mem, books[s])
  }

  /** The pool is partitioned into the free stack, the slots in hand, the slots resting in exactly one
      entry of exactly one book, and the slots that were never returned. */
  predicate EngineInv(mem: seq<Order>, free: seq<Slot>, owner: seq<Owner>, books: map<Symbol, BookState>,
      hand: set<Slot>) {
    && |owner| == |mem|
    && FreeList(free, owner)
    && (forall p :: p in hand ==> p < |owner|)
    && (forall p :: 0 <= p < |owner| ==> (owner[p].InHand? <==> p in hand))
    && RestingSlots(owner, books)
    && BooksInv(mem, books)
  }

  predicate OpenBooks(books: map<Symbol, BookState>) {
    forall s :: s in books ==> Open(books[s].contents)
  }

  function Lost(owner: seq<Owner>): set<Slot> {
    set p | 0 <= p < |owner| && owner[p].Unreturned?
  }

  /** Slots that no resting order occupies may be written. */
  lemma {:induction false} WriteElsewhere(mem: seq<Order>, owner: seq<Owner>, books: map<Symbol, BookState>, p: Slot,
      o: Order)
    requires |owner| == |mem| && p < |mem| && !owner[p].RestsIn?
    requires RestingSlots(owner, books) && BooksInv(mem, books)
    ensures BooksInv(mem[p := o], books)
  {
    hide BookInv;
    forall s | s in books ensures BookInv(s, mem[p := o], books[s]) {
      WriteElsewhereOne(mem, owner, books, p, o, s);
    }
  }

  lemma {:induction false} WriteElsewhereOne(mem: seq<Order>, owner: seq<Owner>, books: map<Symbol, BookState>,
      p: Slot, o: Order, s: Symbol)
    requires |owner| == |mem| && p < |mem| && !owner[p].RestsIn?
    requires RestingSlots(owner, books) && s in books && BookInv(s, mem, books[s])
    ensures BookInv(s, mem[p := o], books[s])
  {
    hide SideInv;
    FrameInv(s, mem, mem[p := o], books[s]);
  }

  lemma {:induction false} BooksAfter(mem: seq<Order>, books: map<Symbol, BookState>, s: Symbol, st: BookState)
    requires BooksInv(mem, books) && BookInv(s, mem, st)
    ensures BooksInv(mem, books[s := st])
  {
    hide BookInv;
  }

  lemma {:induction false} StillFreeList(free: seq<Slot>, owner: seq<Owner>, p: Slot, x: Owner)
    requires FreeList(free, owner) && p < |owner| && !owner[p].Free? && !x.Free?
    ensures FreeList(free, owner[p := x])
  {
  }

  lemma {:induction false} RestsAfterAdd(owner: seq<Owner>, books: map<Symbol, BookState>, s: Symbol, id: OrderID,
      p: Slot, st: BookState)
    requires RestingSlots(owner, books) && s in books && p < |owner| && !owner[p].RestsIn? && id !in books[s].lookup
    requires id in st.lookup && st.lookup[id].slot == p && st.lookup == books[s].lookup[id := st.lookup[id]]
    ensures RestingSlots(owner[p := RestsIn(s, id)], books[s := st])
  {
  }

  lemma {:induction false} RestsAfterRemove(owner: seq<Owner>, books: map<Symbol, BookState>, s: Symbol, id: OrderID,
      st: BookState, x: Owner)
    requires RestingSlots(owner, books) && s in books && id in books[s].lookup && !x.RestsIn?
    requires st.lookup == books[s].lookup - {id}
    ensures RestingSlots(owner[books[s].lookup[id].slot := x], books[s := st])
  {
  }

  lemma {:induction false} RestsSame(owner: seq<Owner>, books: map<Symbol, BookState>, s: Symbol, st: BookState)
    requires RestingSlots(owner, books) && s in books && st.lookup == books[s].lookup
    ensures RestingSlots(owner, books[s := st])
  {
  }

  lemma {:induction false} TakeSlot(mem: seq<Order>, free: seq<Slot>, owner: seq<Owner>, books: map<Symbol,
      BookState>, p: Slot, o: Order)
    requires EngineInv(mem, free + [p], owner, books, {})
    ensures p < |mem| && owner[p].Free?
    ensures EngineInv(mem[p := o], free, owner[p := InHand], books, {p})
    ensures Lost(owner[p := InHand]) == Lost(owner)
  {
    hide BooksInv;
    var owner' := owner[p := InHand];
    assert (free + [p])[|free|] == p;
    assert forall i :: 0 <= i < |free| ==> free[i] == (free + [p])[i];
    assert FreeList(free, owner');
    WriteElsewhere(mem, owner, books, p, o);
  }

  lemma {:induction false} WriteInHand(mem: seq<Order>, free: seq<Slot>, owner: seq<Owner>, books: map<Symbol,
      BookState>, hand: set<Slot>, p: Slot, o: Order)
    requires EngineInv(mem, free, owner, books, hand) && p in hand
    ensures EngineInv(mem[p := o], free, owner, books, hand)
  {
    hide BooksInv;
    WriteElsewhere(mem, owner, books, p, o);
  }

  lemma {:induction false} GiveBack(mem: seq<Order>, free: seq<Slot>, owner: seq<Owner>, books: map<Symbol,
      BookState>, hand: set<Slot>, p: Slot)
    requires EngineInv(mem, free, owner, books, hand) && p in hand
    ensures EngineInv(mem, free + [p], owner[p := Free], books, hand - {p})
    ensures Lost(owner[p := Free]) == Lost(owner)
  {
    hide BooksInv;
    assert FreeList(free + [p], owner[p := Free]);
  }

  lemma {:induction false} Lose(mem: seq<Order>, free: seq<Slot>, owner: seq<Owner>, books: map<Symbol, BookState>,
      hand: set<Slot>, p: Slot)
    requires EngineInv(mem, free, owner, books, hand) && p in hand
    ensures EngineInv(mem, free, owner[p := Unreturned], books, hand - {p})
    ensures |Lost(owner[p := Unreturned])| == |Lost(owner)| + 1
  {
    hide BooksInv;
    assert FreeList(free, owner[p := Unreturned]);
    assert Lost(owner[p := Unreturned]) == Lost(owner) + {p};
  }

  lemma {:induction false} OpenBook(mem: seq<Order>, free: seq<Slot>, owner: seq<Owner>, books: map<Symbol,
      BookState>, hand: set<Slot>, s: Symbol)
    requires EngineInv(mem, free, owner, books, hand) && s !in books
    ensures EngineInv(mem, free, owner, books[s := EMPTY_BOOK], hand)
  {
    EmptyBookInv(s, mem);
    hide BookInv;
  }

  lemma {:induction false} EmptyBookInv(s: Symbol, mem: seq<Order>)
    ensures BookInv(s, mem, EMPTY_BOOK)
  {
  }

  lemma {:induction false} ToRest(mem: seq<Order>, free: seq<Slot>, owner: seq<Owner>, books: map<Symbol, BookState>,
      hand: set<Slot>, p: Slot)
    requires EngineInv(mem, free, owner, books, hand) && p in hand
    requires mem[p].symbol in books
    ensures var s, id := mem[p].symbol, mem[p].id;
      && (!HasId(books[s].contents, id) ==>
            EngineInv(mem, free, owner[p := RestsIn(s, id)], books[s := Added(mem, books[s], p)], hand - {p}))
      && Lost(owner[p := RestsIn(s, id)]) == Lost(owner)
  {
    hide BookInv, BooksInv, FreeList, RestingSlots, Append, HasId, Lost;
    var s, id := mem[p].symbol, mem[p].id;
    var st := Added(mem, books[s], p);
    LostSame(owner, p, RestsIn(s, id));
    BookInvOf(mem, books, s);
    AddedInv(s, mem, books[s], p);
    if !HasId(books[s].contents, id) {
      BooksAfter(mem, books, s, st);
      StillFreeList(free, owner, p, RestsIn(s, id));
      RestsAfterAdd(owner, books, s, id, p, st);
    }
  }

  lemma {:induction false} BookInvOf(mem: seq<Order>, books: map<Symbol, BookState>, s: Symbol)
    requires BooksInv(mem, books) && s in books
    ensures BookInv(s, mem, books[s])
    ensures forall id :: id in books[s].lookup <==> HasId(books[s].contents, id)
  {
  }

  lemma {:induction false} FillResting(mem: seq<Order>, free: seq<Slot>, owner: seq<Owner>, books: map<Symbol,
      BookState>, hand: set<Slot>, s: Symbol, k: nat, o: Order)
    requires EngineInv(mem, free, owner, books, hand) && s in books && k < |books[s].contents|
    requires o == books[s].contents[k].(filled := o.filled)
    ensures o.id in books[s].lookup
    ensures var p := books[s].lookup[o.id].slot;
      && p < |mem| && mem[p] == books[s].contents[k] && p !in hand
      && EngineInv(mem[p := o], free, owner, books[s := books[s].(contents := books[s].contents[k := o])], hand)
  {
    hide BookInv, FreeList;
    BookInvOf(mem, books, s);
    FilledInv(s, mem, books[s], k, o);
    var p, st := books[s].lookup[o.id].slot, books[s].(contents := books[s].contents[k := o]);
    assert owner[p] == RestsIn(s, o.id);
    RestsSame(owner, books, s, st);
    forall t | t in books && t != s ensures BookInv(t, mem[p := o], books[t]) {
      BookInvOf(mem, books, t);
      OtherBookKeepsStill(mem, owner, books, t, p, o);
    }
  }

  lemma {:induction false} OtherBookKeepsStill(mem: seq<Order>, owner: seq<Owner>, books: map<Symbol, BookState>,
      t: Symbol, p: Slot, o: Order)
    requires |owner| == |mem| && p < |mem| && owner[p].RestsIn? && owner[p].symbol != t
    requires RestingSlots(owner, books) && t in books && BookInv(t, mem, books[t])
    ensures BookInv(t, mem[p := o], books[t])
  {
    hide SideInv;
    FrameInv(t, mem, mem[p := o], books[t]);
  }

  lemma {:induction false} RemoveResting(mem: seq<Order>, free: seq<Slot>, owner: seq<Owner>, books: map<Symbol,
      BookState>, hand: set<Slot>, s: Symbol, id: OrderID)
    requires EngineInv(mem, free, owner, books, hand) && s in books && id in books[s].lookup
    ensures var p := books[s].lookup[id].slot;
      && p < |mem| && p !in hand
      && EngineInv(mem, free, owner[p := InHand], books[s := Erased(mem, books[s], id)], hand + {p})
      && Lost(owner[p := InHand]) == Lost(owner)
  {
    hide BookInv, BooksInv, FreeList, RestingSlots, Erased, IndexOf, Without, Lost;
    var p := books[s].lookup[id].slot;
    SlotOwner(owner, books, s, id);
    BookInvOf(mem, books, s);
    ErasedInv(s, mem, books[s], id);
    var st := Erased(mem, books[s], id);
    BooksAfter(mem, books, s, st);
    StillFreeList(free, owner, p, InHand);
    RestsAfterRemove(owner, books, s, id, st, InHand);
    LostSame(owner, p, InHand);
  }

  lemma {:induction false} SlotOwner(owner: seq<Owner>, books: map<Symbol, BookState>, s: Symbol, id: OrderID)
    requires RestingSlots(owner, books) && s in books && id in books[s].lookup
    ensures books[s].lookup[id].slot < |owner| && owner[books[s].lookup[id].slot] == RestsIn(s, id)
  {
  }

  lemma {:induction false} LostSame(owner: seq<Owner>, p: Slot, x: Owner)
    requires p < |owner| && !owner[p].Unreturned? && !x.Unreturned?
    ensures Lost(owner[p := x]) == Lost(owner)
  {
  }

  lemma {:induction false} EngineFactsOf(mem: seq<Order>, free: seq<Slot>, owner: seq<Owner>, books: map<Symbol,
      BookState>, hand: set<Slot>, s: Symbol)
    requires EngineInv(mem, free, owner, books, hand) && s in books
    ensures |owner| == |mem| && BookInv(s, mem, books[s])
  {
    hide BookInv;
  }

  lemma {:induction false} HandIsOwned(mem: seq<Order>, free: seq<Slot>, owner: seq<Owner>, books: map<Symbol,
      BookState>, hand: set<Slot>)
    requires EngineInv(mem, free, owner, books, hand)
    ensures |owner| == |mem| && forall p :: p in hand ==> p < |mem|
  {
  }
}
