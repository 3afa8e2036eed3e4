/** Whole runs of the engine class: it answers exactly as the reference engine does. */
module EngineRuns {
  import opened ReferenceEngine
  import opened ReferenceRuns
  import opened BookModel
  import opened EngineModel
  import ME = MatchingEngine

  method ExecuteOne(engine: ME.MatchingEngine, op: Op) returns (reply: Reply)
    requires engine.Valid() && AllOpen(engine.Abs())
    requires op.New? ==> op.order.filled == 0 && !Clashes(engine.Abs(), op.order)
    modifies engine, engine.orderPool`freeIndices, engine.orderPool.slots, engine.orderBooks.Values
    ensures engine.Valid() && fresh(engine.orderBooks.Values - old(engine.orderBooks.Values))
    ensures (engine.Abs(), reply) == Step(old(engine.Abs()), op)
  {
    hide ME.MatchingEngine.Valid, ME.MatchingEngine.Abs, NewOrder, CancelOrder, Clashes, AllOpen;
    match op
    case New(o) =>
      var trades := engine.ProcessNewOrder(o);
      reply := Executed(trades);
    case Cancel(id, symbol) =>
      var order := engine.CancelOrder(id, symbol, 0);
      reply := Cancelled(order);
  }

  /** The engine, driven through any admissible run, returns exactly the trades and the cancellation
      results of the reference engine and ends in the state that stands for the reference engine's. */
  method Execute(engine: ME.MatchingEngine, ops: seq<Op>) returns (replies: seq<Reply>)
    requires engine.Valid()
    requires AllOpen(engine.Abs()) && Admissible(engine.Abs(), ops)
    modifies engine, engine.orderPool`freeIndices, engine.orderPool.slots, engine.orderBooks.Values
    ensures engine.Valid()
    ensures engine.Abs() == Run(old(engine.Abs()), ops)
    ensures |replies| == |ops|
    ensures forall i :: 0 <= i < |ops| ==> replies[i] == Step(Run(old(engine.Abs()), ops[..i]), ops[i]).1
  {
    hide ME.MatchingEngine.Valid, ME.MatchingEngine.Abs, Step, Run, Clashes, Admissible, AllOpen;
    ghost var m := engine.Abs();
    replies := [];
    assert ops[..0] == [];
    RunOne(m, []);
    AdmissibleIsUnfilled(m, ops);
    for n := 0 to |ops|
      invariant engine.Valid() && fresh(engine.orderBooks.Values - old(engine.orderBooks.Values))
      invariant engine.Abs() == Run(m, ops[..n])
      invariant |replies| == n
      invariant forall i :: 0 <= i < n ==> replies[i] == Step(Run(m, ops[..i]), ops[i]).1
    {
      AdmissibleAt(m, ops, n);
      var reply := ExecuteOne(engine, ops[n]);
      replies := replies + [reply];
    }
    assert ops[..|ops|] == ops;
  }

  /** Slot ownership: between calls every slot of the pool is exactly one of free (once on the stack), lost,
      or resting under exactly one identifier of exactly one symbol's book. */
  lemma {:induction false} PoolIsPartitioned(engine: ME.MatchingEngine, p: Slot)
    requires engine.Valid() && p < engine.orderPool.slots.Length
    ensures var free, lost, books := engine.orderPool.freeIndices, Lost(engine.owner), engine.Books();
      var rests := exists s, id :: s in books && id in books[s].lookup && books[s].lookup[id].slot == p;
      && (p in free || p in lost || rests)
      && !(p in free && p in lost) && !(p in free && rests) && !(p in lost && rests)
    ensures var free := engine.orderPool.freeIndices; forall i, j :: 0 <= i < j < |free| ==> free[i] != free[j]
    ensures var books := engine.Books();
      forall s, t, id, jd ::
        (s in books && t in books && id in books[s].lookup && jd in books[t].lookup
         && books[s].lookup[id].slot == p && books[t].lookup[jd].slot == p) ==> s == t && id == jd
  {
    hide BooksInv, ME.MatchingEngine.Books;
    var books, owner := engine.Books(), engine.owner;
    if owner[p].RestsIn? {
      assert owner[p].id in books[owner[p].symbol].lookup;
    }
  }
}
