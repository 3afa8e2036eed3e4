/** The values the engine works on (include/types.h).  Prices are exact reals, so they are
    totally ordered; quantities and identifiers are 64-bit unsigned and wrap. */
module Types {
  const WRAP: int := 0x1_0000_0000_0000_0000

  type u64 = x: int | 0 <= x < 0x1_0000_0000_0000_0000
  type byte = x: int | 0 <= x < 256

  type OrderID = u64
  type UserID = u64
  type Quantity = u64
  type Price = real
  type Symbol = seq<byte>

  datatype Option<+T> = None | Some(value: T)

  datatype Side = Buy | Sell {
    function Opposite(): Side {
      if Buy? then Sell else Buy
    }
  }

  datatype OrderType = Limit | Market | FillOrKill | ImmediateOrCancel | GoodForDay

  /** Unsigned 64-bit subtraction and addition, as the machine performs them. */
  function Sub64(a: u64, b: u64): u64 {
    (a - b) % WRAP
  }

  function Add64(a: u64, b: u64): u64 {
    (a + b) % WRAP
  }

  lemma {:induction false} ModAdd(a: nat, b: nat)
    ensures (a % WRAP + b) % WRAP == (a + b) % WRAP
  {
  }

  lemma {:induction false} SeqAssociates<T>(a: seq<T>, b: seq<T>, c: seq<T>)
    ensures a + b + c == a + (b + c)
  {
  }

  datatype Order = Order(id: OrderID, symbol: Symbol, userId: UserID, side: Side, kind: OrderType,
                         price: Price, quantity: Quantity, filled: Quantity)
  {
    /** The program's own arithmetic, wrap included. */
    predicate IsFilled() {
      filled >= quantity
    }

    function RemainingQty(): Quantity {
      Sub64(quantity, filled)
    }

    function ReduceQuantity(qty: Quantity): Order {
      this.(filled := Add64(filled, qty))
    }

    /** The specification's arithmetic, on unbounded integers. */
    function Left(): int {
      quantity - filled
    }

    predicate IsOpen() {
      filled < quantity
    }

    function Fill(qty: int): Order
      requires 0 <= qty <= Left()
    {
      this.(filled := filled + qty)
    }
  }

  /** While an order is not over-filled the machine arithmetic and the exact one agree. */
  lemma {:induction false} NoWrap(o: Order, qty: Quantity)
    requires o.filled <= o.quantity
    ensures o.RemainingQty() == o.Left()
    ensures qty <= o.Left() ==> o.ReduceQuantity(qty) == o.Fill(qty)
  {
  }

  datatype Trade = Trade(buyOrderId: OrderID, buyUserId: UserID, sellOrderId: OrderID, sellUserId: UserID,
                         symbol: Symbol, price: Price, quantity: Quantity)

  function SumQuantity(trades: seq<Trade>): nat {
    if trades == [] then 0 else trades[0].quantity + SumQuantity(trades[1..])
  }

  lemma {:induction false} SumQuantityConcat(a: seq<Trade>, b: seq<Trade>)
    ensures SumQuantity(a + b) == SumQuantity(a) + SumQuantity(b)
  {
    if a == [] {
      assert a + b == b;
    } else {
      assert (a + b)[1..] == a[1..] + b;
      SumQuantityConcat(a[1..], b);
    }
  }
}
