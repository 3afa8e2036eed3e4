/** What the packets mean: packing of orders by the Python gateway, decoding by the C++ gateway, and the
    event log of fixed-size order records. */
module OrderMessages {
  import opened Types
  import opened Wire
  import opened ReferenceRuns

  const LOGIN_REQUEST: byte := 76
  const NEW_ORDER: byte := 78
  const ORDER_CANCEL: byte := 67
  const MARKET_DATA_REQUEST: byte := 77
  const SUBSCRIPTION_REQUEST: byte := 81

  const NEW_ORDER_SIZE: nat := 49
  const ORDER_CANCEL_SIZE: nat := 32
  const SYMBOL_SIZE: nat := 10
  const MAX_PACKET: nat := 1024

  /** How a price's eight bytes are read; the floating-point format itself is not modelled. */
  type PriceReader = Bytes -> Price

  // ---------------------------------------------------------------- symbols

  predicate IsSpace(b: byte) {
    b == 32 || 9 <= b <= 13
  }

  function RemoveNul(s: Bytes): Bytes {
    if s == [] then [] else (if s[0] == 0 then [] else [s[0]]) + RemoveNul(s[1..])
  }

  function TrimRight(s: Bytes): Bytes {
    if s != [] && IsSpace(s[|s| - 1]) then TrimRight(s[..|s| - 1]) else s
  }

  function Clean(raw: Bytes): Bytes {
    TrimRight(RemoveNul(raw))
  }

  /** A symbol as it travels: cut or zero-padded to ten bytes. */
  function Fit(symbol: Bytes): (r: Bytes)
    ensures |r| == SYMBOL_SIZE
  {
    if |symbol| >= SYMBOL_SIZE then symbol[..SYMBOL_SIZE]
    else symbol + seq(SYMBOL_SIZE - |symbol|, _ => 0)
  }

  lemma {:induction false} RemoveNulConcat(a: Bytes, b: Bytes)
    ensures RemoveNul(a + b) == RemoveNul(a) + RemoveNul(b)
  {
    if a == [] {
      assert a + b == b;
    } else {
      assert (a + b)[1..] == a[1..] + b;
      RemoveNulConcat(a[1..], b);
      SeqAssociates(if a[0] == 0 then [] else [a[0]], RemoveNul(a[1..]), RemoveNul(b));
    }
  }

  lemma {:induction false} RemoveNulIs(s: Bytes)
    ensures 0 !in RemoveNul(s) && |RemoveNul(s)| <= |s|
    ensures 0 !in s ==> RemoveNul(s) == s
    ensures (forall i :: 0 <= i < |s| ==> s[i] == 0) ==> RemoveNul(s) == []
  {
    if s != [] {
      RemoveNulIs(s[1..]);
    }
  }

  /** Nothing but white space is cut off, and all of it. */
  lemma {:induction false} CleanIs(raw: Bytes)
    ensures var kept, all := Clean(raw), RemoveNul(raw);
      && kept <= all
      && (forall i :: |kept| <= i < |all| ==> all[i] == 32 || 9 <= all[i] <= 13)
      && (kept != [] ==> kept[|kept| - 1] != 32 && !(9 <= kept[|kept| - 1] <= 13))
  {
    hide RemoveNul;
    TrimmedIsSpace(RemoveNul(raw));
    TrimRightIs(RemoveNul(raw));
  }

  lemma {:induction false} TrimmedIsSpace(s: Bytes)
    ensures TrimRight(s) <= s && forall i :: |TrimRight(s)| <= i < |s| ==> IsSpace(s[i])
  {
    if s != [] && IsSpace(s[|s| - 1]) {
      TrimmedIsSpace(s[..|s| - 1]);
    }
  }

  lemma {:induction false} TrimRightIs(s: Bytes)
    ensures TrimRight(s) <= s
    ensures TrimRight(s) == [] || !IsSpace(TrimRight(s)[|TrimRight(s)| - 1])
    ensures TrimRight(s) == s <==> s == [] || !IsSpace(s[|s| - 1])
  {
    if s != [] && IsSpace(s[|s| - 1]) {
      TrimRightIs(s[..|s| - 1]);
    }
  }

  /** A C string: the bytes before the first zero, if there is one. */
  function UpToZero(b: Bytes): Option<Bytes> {
    if b == [] then None
    else if b[0] == 0 then Some([])
    else
      match UpToZero(b[1..])
      case None => None
      case Some(s) => Some([b[0]] + s)
  }

  /** The string ends at the first zero byte and nowhere else. */
  lemma {:induction false} UpToZeroIs(b: Bytes, s: Bytes)
    ensures UpToZero(b) == Some(s) <==> 0 !in s && s + [0] <= b
  {
    if b == [] {
    } else if b[0] == 0 {
      if s != [] && s + [0] <= b {
        assert (s + [0])[0] == s[0] == b[0];
      }
      if s == [] {
        assert s + [0] == [0] && b[..1] == [0];
      }
    } else if s == [] {
      assert (s + [0])[0] == 0;
      assert UpToZero(b) == Some(s) ==> false by {
        var more := UpToZero(b[1..]);
        assert more.Some? ==> |[b[0]] + more.value| > 0;
      }
    } else {
      UpToZeroIs(b[1..], s[1..]);
      UpToZeroOfCons(b, s);
    }
  }

  lemma {:induction false} UpToZeroOfCons(b: Bytes, s: Bytes)
    requires b != [] && b[0] != 0 && s != []
    ensures UpToZero(b) == Some(s) <==> s[0] == b[0] && UpToZero(b[1..]) == Some(s[1..])
    ensures s + [0] <= b <==> s[0] == b[0] && s[1..] + [0] <= b[1..]
  {
    assert s == [s[0]] + s[1..] && (s + [0])[1..] == s[1..] + [0] && (s + [0])[0] == s[0];
    if UpToZero(b[1..]).Some? {
      assert ([b[0]] + UpToZero(b[1..]).value)[1..] == UpToZero(b[1..]).value;
    }
    if s[0] == b[0] && s[1..] + [0] <= b[1..] {
      assert b == [b[0]] + b[1..];
      assert s + [0] == [s[0]] + (s[1..] + [0]);
    }
    if s + [0] <= b {
      assert b[..|s| + 1] == s + [0];
      assert b[1..][..|s|] == s[1..] + [0];
    }
  }

  predicate Travels(symbol: Bytes) {
    |symbol| <= SYMBOL_SIZE && 0 !in symbol && (symbol == [] || !IsSpace(symbol[|symbol| - 1]))
  }

  /** Exactly which symbols survive the trip: at most ten bytes, no NUL, no trailing white space. */
  lemma {:induction false} SymbolSurvivesIff(symbol: Bytes)
    ensures Clean(Fit(symbol)) == symbol <==> Travels(symbol)
    ensures Clean(Fit(symbol)) == symbol <==>
      && |symbol| <= 10 && (forall i :: 0 <= i < |symbol| ==> symbol[i] != 0)
      && (symbol != [] ==> symbol[|symbol| - 1] != 32 && !(9 <= symbol[|symbol| - 1] <= 13))
  {
    hide RemoveNul, TrimRight;
    var raw := Fit(symbol);
    RemoveNulIs(raw);
    TrimRightIs(RemoveNul(raw));
    if |symbol| <= SYMBOL_SIZE {
      var pad := seq(SYMBOL_SIZE - |symbol|, _ => 0 as byte);
      assert raw == symbol + pad;
      RemoveNulConcat(symbol, pad);
      RemoveNulIs(symbol);
      RemoveNulIs(pad);
      assert RemoveNul(raw) == RemoveNul(symbol);
    }
  }

  // ---------------------------------------------------------------- orders

  /** The arguments of a PlaceOrder call, with the identifier the gateway drew for it. */
  datatype OrderForm = OrderForm(orderId: u64, userId: u64, symbol: Bytes, buy: bool, market: bool,
                                 priceBits: Bytes, quantity: u64)

  function OrderPayload(f: OrderForm): (p: Bytes)
    requires |f.priceBits| == 8
    ensures |p| == NEW_ORDER_SIZE - HEADER_SIZE
  {
    ToLE(f.orderId, 8) + ToLE(f.userId, 8) + Fit(f.symbol) + [if f.buy then 0 else 1] + [if f.market then 0 else 1]
    + f.priceBits + ToLE(f.quantity, 8)
  }

  function OrderFrame(f: OrderForm): Bytes
    requires |f.priceBits| == 8
  {
    Frame(NEW_ORDER, OrderPayload(f))
  }

  /** The engine sees only MARKET and LIMIT orders from the wire. */
  function DecodeOrder(rec: Bytes, priceOf: PriceReader): (o: Order)
    requires |rec| >= NEW_ORDER_SIZE
    ensures o.filled == 0
  {
    Order(U64At(rec, 5), Clean(rec[21..31]), U64At(rec, 13), if rec[31] == 0 then Buy else Sell,
          if rec[32] == 0 then Market else Limit, priceOf(rec[33..41]), U64At(rec, 41), 0)
  }

  /** The symbol read as a C string.  Nothing ends it at ten bytes: it runs on through side, type, price and
      quantity to the first zero byte of the packet. */
  function CString(rec: Bytes): Option<Bytes>
    requires |rec| >= NEW_ORDER_SIZE
  {
    UpToZero(rec[21..])
  }

  function DecodeCancel(rec: Bytes): Op
    requires |rec| >= ORDER_CANCEL_SIZE
  {
    Cancel(U64At(rec, 5), Clean(rec[21..31]))
  }

  /** What the sender meant. */
  function Meant(f: OrderForm, priceOf: PriceReader): Order {
    Order(f.orderId, f.symbol, f.userId, if f.buy then Buy else Sell, if f.market then Market else Limit,
          priceOf(f.priceBits), f.quantity, 0)
  }

  /** The names Gateway and Pass, padded to twenty bytes each. */
  function LoginPayload(): (p: Bytes)
    ensures |p| == 40
  {
    [71, 97, 116, 101, 119, 97, 121] + seq(13, _ => 0) + [80, 97, 115, 115] + seq(16, _ => 0)
  }

  /** What the Python gateway sends first. */
  function LoginFrame(): Bytes {
    Frame(LOGIN_REQUEST, LoginPayload())
  }

  lemma {:induction false} LoginFrameIs()
    ensures var p := LoginFrame(); |p| == 45 == MsgLen(p) && MsgType(p) == LOGIN_REQUEST && p[2] == 76
  {
    hide ToLE, FromLE, MsgLen, MsgType, Frame, LoginPayload;
    FrameHeader(LOGIN_REQUEST, LoginPayload(), []);
    FrameBytes(LOGIN_REQUEST, LoginPayload());
    assert LoginFrame() + [] == LoginFrame();
  }

  lemma {:induction false} FieldsOfPayload(f: OrderForm)
    requires |f.priceBits| == 8
    ensures var p := OrderPayload(f);
      && p[0..8] == ToLE(f.orderId, 8) && p[8..16] == ToLE(f.userId, 8) && p[16..26] == Fit(f.symbol)
      && p[26] == (if f.buy then 0 else 1) && p[27] == (if f.market then 0 else 1)
      && p[28..36] == f.priceBits && p[36..44] == ToLE(f.quantity, 8)
  {
    hide ToLE, Fit;
  }

  lemma {:induction false} FieldsOfFrame(f: OrderForm)
    requires |f.priceBits| == 8
    ensures var rec := OrderFrame(f);
      && |rec| == NEW_ORDER_SIZE == MsgLen(rec) && MsgType(rec) == NEW_ORDER
      && rec[5..13] == ToLE(f.orderId, 8) && rec[13..21] == ToLE(f.userId, 8) && rec[21..31] == Fit(f.symbol)
      && rec[31] == (if f.buy then 0 else 1) && rec[32] == (if f.market then 0 else 1)
      && rec[33..41] == f.priceBits && rec[41..49] == ToLE(f.quantity, 8)
  {
    hide ToLE, FromLE, Fit, OrderPayload, Frame;
    var rec, p := OrderFrame(f), OrderPayload(f);
    FrameHeader(NEW_ORDER, p, []);
    assert rec + [] == rec;
    FieldsOfPayload(f);
    assert forall i :: 0 <= i < 44 ==> p[i] == rec[i + 5];
    assert rec[5..13] == p[0..8] && rec[13..21] == p[8..16] && rec[21..31] == p[16..26];
    assert rec[33..41] == p[28..36] && rec[41..49] == p[36..44];
  }

  /** Packing and decoding an order gives back every field; the symbol as it survives the trip. */
  lemma {:induction false} DecodeUndoesPack(f: OrderForm, priceOf: PriceReader)
    requires |f.priceBits| == 8
    ensures |OrderFrame(f)| == NEW_ORDER_SIZE
    ensures DecodeOrder(OrderFrame(f), priceOf) == Meant(f, priceOf).(symbol := Clean(Fit(f.symbol)))
    ensures var o := DecodeOrder(OrderFrame(f), priceOf);
      && o.id == f.orderId && o.userId == f.userId && o.symbol == Clean(Fit(f.symbol))
      && o.side == (if f.buy then Buy else Sell) && o.kind == (if f.market then Market else Limit)
      && o.price == priceOf(f.priceBits) && o.quantity == f.quantity && o.filled == 0
  {
    hide ToLE, FromLE, Fit, Clean, OrderFrame;
    FieldsOfFrame(f);
    Pow256Values();
    FromToLE(f.orderId, 8);
    FromToLE(f.userId, 8);
    FromToLE(f.quantity, 8);
  }

  // ---------------------------------------------------------------- cancels

  function CancelPayload(orderId: u64, userId: u64, symbol: Bytes, buy: bool): (p: Bytes)
    ensures |p| == 27
  {
    ToLE(orderId, 8) + ToLE(userId, 8) + Fit(symbol) + [if buy then 0 else 1]
  }

  function CancelFrame(orderId: u64, userId: u64, symbol: Bytes, buy: bool): Bytes {
    Frame(ORDER_CANCEL, CancelPayload(orderId, userId, symbol, buy))
  }

  lemma {:induction false} FieldsOfCancel(orderId: u64, userId: u64, symbol: Bytes, buy: bool)
    ensures var rec := CancelFrame(orderId, userId, symbol, buy);
      && |rec| == 32 == MsgLen(rec) && rec[2] == 67
      && rec[5..13] == ToLE(orderId, 8) && rec[13..21] == ToLE(userId, 8) && rec[21..31] == Fit(symbol)
      && rec[31] == (if buy then 0 else 1)
  {
    hide ToLE, FromLE, Fit, Frame, MsgLen;
    var p, rec := CancelPayload(orderId, userId, symbol, buy), CancelFrame(orderId, userId, symbol, buy);
    FrameHeader(ORDER_CANCEL, p, []);
    FrameBytes(ORDER_CANCEL, p);
    assert rec + [] == rec;
    assert p[0..8] == ToLE(orderId, 8) && p[8..16] == ToLE(userId, 8) && p[16..26] == Fit(symbol);
    assert forall i :: 0 <= i < 27 ==> p[i] == rec[i + 5];
    assert rec[5..13] == p[0..8] && rec[13..21] == p[8..16] && rec[21..31] == p[16..26];
  }

  /** Packing and decoding a cancel gives back the order's identifier, not the user's, and the cleaned symbol. */
  lemma {:induction false} DecodeUndoesCancel(orderId: u64, userId: u64, symbol: Bytes, buy: bool)
    ensures var rec := CancelFrame(orderId, userId, symbol, buy);
      && |rec| == 32 && DecodeCancel(rec) == Cancel(orderId, Clean(Fit(symbol)))
      && U64At(rec, 5) == orderId && U64At(rec, 13) == userId
  {
    hide ToLE, FromLE, Fit, Clean, CancelFrame, MsgLen;
    FieldsOfCancel(orderId, userId, symbol, buy);
    Pow256Values();
    FromToLE(orderId, 8);
    FromToLE(userId, 8);
  }

  // ---------------------------------------------------------------- the event log

  /** The whole order records of a log; a partial one at the end is never read. */
  function Records(log: Bytes): (r: seq<Bytes>)
    ensures |r| == |log| / NEW_ORDER_SIZE
    ensures forall i :: 0 <= i < |r| ==> |r[i]| == NEW_ORDER_SIZE
  {
    if |log| < NEW_ORDER_SIZE then [] else [log[..NEW_ORDER_SIZE]] + Records(log[NEW_ORDER_SIZE..])
  }

  function RecordOps(records: seq<Bytes>, priceOf: PriceReader): (ops: seq<Op>)
    requires forall i :: 0 <= i < |records| ==> |records[i]| == NEW_ORDER_SIZE
    ensures |ops| == |records|
    ensures forall i :: 0 <= i < |records| ==> ops[i] == New(DecodeOrder(records[i], priceOf))
  {
    seq(|records|, i requires 0 <= i < |records| => New(DecodeOrder(records[i], priceOf)))
  }

  /** The operations a replay of the log performs. */
  function ReplayOps(log: Bytes, priceOf: PriceReader): (ops: seq<Op>)
    ensures |ops| == |log| / NEW_ORDER_SIZE
    ensures forall i :: 0 <= i < |ops| ==> ops[i].New? && ops[i].order.filled == 0
  {
    RecordOps(Records(log), priceOf)
  }

  lemma {:induction false} RecordsAppend(log: Bytes, tail: Bytes)
    requires |log| % NEW_ORDER_SIZE == 0
    ensures Records(log + tail) == Records(log) + Records(tail)
  {
    if log == [] {
      assert log + tail == tail;
    } else {
      var rest := log[NEW_ORDER_SIZE..];
      assert (log + tail)[..NEW_ORDER_SIZE] == log[..NEW_ORDER_SIZE];
      assert (log + tail)[NEW_ORDER_SIZE..] == rest + tail;
      RecordsAppend(rest, tail);
      SeqAssociates([log[..NEW_ORDER_SIZE]], Records(rest), Records(tail));
    }
  }

  /** A log cut off anywhere replays to a leading part of the run. */
  lemma {:induction false} TruncatedReplay(log: Bytes, k: nat, priceOf: PriceReader)
    requires k <= |log|
    ensures ReplayOps(log[..k], priceOf) == ReplayOps(log, priceOf)[..k / NEW_ORDER_SIZE]
  {
    var n := k / NEW_ORDER_SIZE * NEW_ORDER_SIZE;
    hide Records;
    assert log == log[..n] + log[n..];
    RecordsAppend(log[..n], log[n..]);
    assert log[..k] == log[..n] + log[n..k];
    RecordsAppend(log[..n], log[n..k]);
    assert Records(log[n..k]) == [];
  }

  // ---------------------------------------------------------------- a session's packets

  /** The cast to the message's struct stays inside the packet. */
  predicate WellSized(p: Bytes) {
    && |p| >= HEADER_SIZE
    && (MsgType(p) == LOGIN_REQUEST ==> |p| >= 45)
    && (MsgType(p) == NEW_ORDER ==> |p| >= NEW_ORDER_SIZE)
    && (MsgType(p) == ORDER_CANCEL ==> |p| >= ORDER_CANCEL_SIZE)
    && (MsgType(p) == MARKET_DATA_REQUEST ==> |p| >= 15)
    && (MsgType(p) == SUBSCRIPTION_REQUEST ==> |p| >= 16)
  }

  predicate AllWellSized(packets: seq<Bytes>) {
    forall i :: 0 <= i < |packets| ==> WellSized(packets[i])
  }

  lemma {:induction false} AllWellSizedCons(p: Bytes, packets: seq<Bytes>)
    ensures AllWellSized([p] + packets) <==> WellSized(p) && AllWellSized(packets)
  {
    hide WellSized;
    assert ([p] + packets)[0] == p;
    assert forall i :: 0 <= i < |packets| ==> packets[i] == ([p] + packets)[i + 1];
  }

  /** What a session's packets make the engine do, what they add to the log, and whether the session is
      logged in afterwards.  A packet shorter than its struct has no effect here; the gateway is never
      proved to get one. */
  datatype Effect = Effect(ops: seq<Op>, log: Bytes, loggedIn: bool)

  function PacketEffect(loggedIn: bool, p: Bytes, priceOf: PriceReader): (e: Effect)
    ensures |e.ops| <= 1 && Unfilled(e.ops)
  {
    if !WellSized(p) then Effect([], [], loggedIn)
    else if MsgType(p) == LOGIN_REQUEST then Effect([], [], true)
    else if !loggedIn then Effect([], [], false)
    else if MsgType(p) == NEW_ORDER then Effect([New(DecodeOrder(p, priceOf))], p[..NEW_ORDER_SIZE], true)
    else if MsgType(p) == ORDER_CANCEL then Effect([DecodeCancel(p)], p[..ORDER_CANCEL_SIZE], true)
    else Effect([], [], true)
  }

  /** What the bytes of a packet say: the type is byte 2.  Only a log-in, type 76, has an effect before one;
      after it an order, type 78, is performed and logged in 49 bytes, a cancel, type 67, in 32. */
  lemma {:induction false} PacketMeans(loggedIn: bool, p: Bytes, priceOf: PriceReader)
    requires WellSized(p)
    ensures var e := PacketEffect(loggedIn, p, priceOf);
      && e.loggedIn == (loggedIn || p[2] == 76)
      && (!loggedIn || (p[2] != 78 && p[2] != 67) ==> e.ops == [] && e.log == [])
      && (loggedIn && p[2] == 78 ==>
            && |p| >= 49 && e.log == p[..49] && |e.ops| == 1 && e.ops[0].New?
            && var o := e.ops[0].order;
            && o.id == FromLE(p[5..13]) && o.userId == FromLE(p[13..21]) && o.symbol == Clean(p[21..31])
            && (o.side == Buy <==> p[31] == 0) && o.kind == (if p[32] == 0 then Market else Limit)
            && o.price == priceOf(p[33..41]) && o.quantity == FromLE(p[41..49]) && o.filled == 0)
      && (loggedIn && p[2] == 67 ==>
            |p| >= 32 && e.log == p[..32] && e.ops == [Cancel(FromLE(p[5..13]), Clean(p[21..31]))])
  {
    hide FromLE, Clean;
  }

  function SessionEffect(loggedIn: bool, packets: seq<Bytes>, priceOf: PriceReader): (e: Effect)
    ensures Unfilled(e.ops)
    decreases packets
  {
    if packets == [] then Effect([], [], loggedIn)
    else
      var now := PacketEffect(loggedIn, packets[0], priceOf);
      var later := SessionEffect(now.loggedIn, packets[1..], priceOf);
      Effect(now.ops + later.ops, now.log + later.log, later.loggedIn)
  }

  lemma {:induction false} DecodeFromRecord(p: Bytes, priceOf: PriceReader)
    requires |p| >= NEW_ORDER_SIZE
    ensures DecodeOrder(p[..NEW_ORDER_SIZE], priceOf) == DecodeOrder(p, priceOf)
  {
    var r := p[..NEW_ORDER_SIZE];
    assert r[5..13] == p[5..13] && r[13..21] == p[13..21] && r[21..31] == p[21..31];
    assert r[33..41] == p[33..41] && r[41..49] == p[41..49];
  }

  predicate NoCancels(ops: seq<Op>) {
    forall i :: 0 <= i < |ops| ==> ops[i].New?
  }

  /** A packet that cancels nothing logs exactly the record of the operation it performs, or nothing. */
  lemma {:induction false} LogRecordsTheOp(loggedIn: bool, p: Bytes, priceOf: PriceReader)
    requires NoCancels(PacketEffect(loggedIn, p, priceOf).ops)
    ensures var e := PacketEffect(loggedIn, p, priceOf);
      |e.log| % NEW_ORDER_SIZE == 0 && ReplayOps(e.log, priceOf) == e.ops
  {
    hide DecodeOrder;
    var e := PacketEffect(loggedIn, p, priceOf);
    if e.ops != [] {
      assert e.ops[0].New?;
      DecodeFromRecord(p, priceOf);
      assert e.log[..NEW_ORDER_SIZE] == e.log && Records(e.log[NEW_ORDER_SIZE..]) == [];
      assert Records(e.log) == [e.log];
    }
  }

  lemma {:induction false} ReplayAppend(log: Bytes, tail: Bytes, priceOf: PriceReader)
    requires |log| % NEW_ORDER_SIZE == 0
    ensures ReplayOps(log + tail, priceOf) == ReplayOps(log, priceOf) + ReplayOps(tail, priceOf)
  {
    hide Records, DecodeOrder;
    RecordsAppend(log, tail);
  }

  lemma {:induction false} NoCancelsConcat(a: seq<Op>, b: seq<Op>)
    ensures NoCancels(a + b) <==> NoCancels(a) && NoCancels(b)
  {
    assert forall i :: 0 <= i < |a| ==> a[i] == (a + b)[i];
    assert forall i :: 0 <= i < |b| ==> b[i] == (a + b)[|a| + i];
  }

  /** When a session cancels nothing, replaying what it logged performs exactly what it did. */
  lemma {:induction false} LogRecordsTheOps(loggedIn: bool, packets: seq<Bytes>, priceOf: PriceReader)
    requires NoCancels(SessionEffect(loggedIn, packets, priceOf).ops)
    ensures var e := SessionEffect(loggedIn, packets, priceOf);
      |e.log| % NEW_ORDER_SIZE == 0 && ReplayOps(e.log, priceOf) == e.ops
    decreases packets
  {
    hide PacketEffect, ReplayOps, NoCancels;
    if packets == [] {
      assert ReplayOps([], priceOf) == [];
    } else {
      var now := PacketEffect(loggedIn, packets[0], priceOf);
      var later := SessionEffect(now.loggedIn, packets[1..], priceOf);
      NoCancelsConcat(now.ops, later.ops);
      LogRecordsTheOp(loggedIn, packets[0], priceOf);
      LogRecordsTheOps(now.loggedIn, packets[1..], priceOf);
      ReplayAppend(now.log, later.log, priceOf);
    }
  }
}
