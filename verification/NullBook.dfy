/** When an order ends the gateway: the exact condition under which the book of an order that traded is not
    found again by the C string in its packet (src/client_gateway.cpp:234-235). */
module NullBook {
  import opened Types
  import opened NaiveBook
  import opened SweepLaws
  import opened ReferenceEngine
  import opened ReferenceRuns
  import opened Wire
  import opened OrderMessages
  import opened GatewayModel
  import opened GatewayRuns
  import opened EndToEnd

  // ---------------------------------------------------------------- the C string of a packed order

  /** The string at the symbol of a packed order: the field up to its first zero byte; a field without one is
      ended by the side byte of a buy, and by nothing in a sell. */
  function WireName(f: OrderForm): Option<Bytes> {
    UpToZero(Fit(f.symbol) + if f.buy then [0] else [])
  }

  lemma {:induction false} UpToZeroStays(s: Bytes, rest: Bytes)
    requires UpToZero(s).Some?
    ensures UpToZero(s + rest) == UpToZero(s)
  {
    assert (s + rest)[0] == s[0];
    if s[0] != 0 {
      UpToZeroStays(s[1..], rest);
      assert (s + rest)[1..] == s[1..] + rest;
    }
  }

  lemma {:induction false} UpToZeroRunsOn(s: Bytes, rest: Bytes)
    requires UpToZero(s).None?
    ensures UpToZero(s + rest).None? || |UpToZero(s + rest).value| >= |s|
  {
    if s != [] {
      assert (s + rest)[0] == s[0];
      assert (s + rest)[1..] == s[1..] + rest;
      UpToZeroRunsOn(s[1..], rest);
    }
  }

  lemma {:induction false} UpToZeroSnoc(s: Bytes, b: byte)
    requires UpToZero(s).None?
    ensures UpToZero(s + [b]) == if b == 0 then Some(s) else None
  {
    if s == [] {
      assert s + [b] == [b] && [b][1..] == [];
    } else {
      UpToZeroSnoc(s[1..], b);
      assert (s + [b])[1..] == s[1..] + [b];
      assert [s[0]] + s[1..] == s;
    }
  }

  /** Reading the packet gives that string, or none that could be the key of a book. */
  lemma {:induction false} CStringOfFrame(f: OrderForm)
    requires |f.priceBits| == 8
    ensures |OrderFrame(f)| >= NEW_ORDER_SIZE
    ensures var name := CString(OrderFrame(f));
      if WireName(f).Some? then name == WireName(f) else name.None? || |name.value| > SYMBOL_SIZE
  {
    hide OrderFrame, UpToZero, ToLE, MsgLen, Fit;
    FieldsOfFrame(f);
    var rec, raw, side := OrderFrame(f), Fit(f.symbol), if f.buy then 0 as byte else 1;
    assert rec[21..] == rec[21..31] + [rec[31]] + rec[32..];
    assert rec[21..] == raw + [side] + rec[32..];
    SeqAssociates(raw, [side], rec[32..]);
    if UpToZero(raw).Some? {
      UpToZeroStays(raw, [0]);
      UpToZeroStays(raw, [side] + rec[32..]);
      assert raw + [] == raw;
    } else {
      UpToZeroSnoc(raw, side);
      assert raw + [] == raw;
      if f.buy {
        UpToZeroStays(raw + [side], rec[32..]);
      } else {
        UpToZeroRunsOn(raw + [side], rec[32..]);
      }
    }
  }

  /** The look-up finds a book for a packed order if and only if the string is the key of one. */
  lemma {:induction false} LookupFindsIff(m: Venue, f: OrderForm)
    requires |f.priceBits| == 8 && KeysTravel(m)
    ensures |OrderFrame(f)| >= NEW_ORDER_SIZE
    ensures LookedUp(m, OrderFrame(f)).Some? <==> WireName(f).Some? && WireName(f).value in m.books
  {
    hide OrderFrame, CString, WireName;
    CStringOfFrame(f);
  }

  // ---------------------------------------------------------------- fatal orders

  lemma {:induction false} ReachedBookExists(m: Venue, o: Order)
    requires AllOpen(m) && o.filled == 0 && Eligible(BookOf(m, o.symbol), o) > 0
    ensures o.symbol in m.books && NewOrder(m, o).0.books.Keys == m.books.Keys
  {
    hide Handle;
  }

  /** For every order of a logged-in session, whatever its symbol: it ends the process if and only if it is
      admitted, something rests within its reach, and the string in its packet is the key of no book. */
  lemma {:induction false} FatalIff(m: Venue, f: OrderForm, priceOf: PriceReader)
    requires AllOpen(m) && KeysTravel(m) && |f.priceBits| == 8
    ensures var o := Arriving(f, priceOf);
      Fatal(m, true, OrderFrame(f), priceOf) <==>
        && Admitted(m, o) && Eligible(BookOf(m, o.symbol), o) > 0
        && !(WireName(f).Some? && WireName(f).value in m.books)
  {
    hide OrderFrame, Clean, Fit, NewOrder, LookedUp, MsgLen, CString, Eligible, IsValidOrder, WireName, Travels;
    FrameIsOrder(f);
    DecodeUndoesPack(f, priceOf);
    var o := Arriving(f, priceOf);
    TradesIff(m, o);
    if Eligible(BookOf(m, o.symbol), o) > 0 {
      ReachedBookExists(m, o);
      LookupFindsIff(NewOrder(m, o).0, f);
    }
  }

  // ---------------------------------------------------------------- safe names

  /** The string in the packet is the very key the order's book is kept under. */
  predicate NameIsSafe(f: OrderForm) {
    WireName(f) == Some(Clean(Fit(f.symbol)))
  }

  /** A counter-order that a valid order reaches, alone on the venue. */
  function LoneVenue(o: Order): (m: Venue)
    requires IsValidOrder(o)
    ensures AllOpen(m)
  {
    var counter := o.(side := o.side.Opposite(), kind := Limit, quantity := 1, filled := 0);
    Venue(map[o.symbol := [counter]], [], 1, 0, 0, 0, 0)
  }

  lemma {:induction false} LoneVenueIsReached(o: Order)
    requires IsValidOrder(o)
    ensures Admitted(LoneVenue(o), o) && Eligible(BookOf(LoneVenue(o), o.symbol), o) == 1
  {
    var x := BookOf(LoneVenue(o), o.symbol)[0];
    var f := IsEligible(o.side, o.kind, o.price);
    assert f(x) && [x][1..] == [];
    assert Filter([x], f) == [x];
    assert Total([x]) == x.Left();
  }

  /** Exactly the orders under safe names are fatal in no state whatever. */
  lemma {:induction false} NeverFatalIff(f: OrderForm, priceOf: PriceReader)
    requires |f.priceBits| == 8 && IsValidOrder(Arriving(f, priceOf))
    ensures NameIsSafe(f) <==>
      forall m :: AllOpen(m) && KeysTravel(m) ==> !Fatal(m, true, OrderFrame(f), priceOf)
  {
    hide OrderFrame, Fatal, Clean, Fit, WireName, Eligible, IsValidOrder, Meant, Travels;
    var o := Arriving(f, priceOf);
    if NameIsSafe(f) {
      forall m | AllOpen(m) && KeysTravel(m) ensures !Fatal(m, true, OrderFrame(f), priceOf) {
        SafeIsNotFatal(m, f, priceOf);
      }
    } else {
      CleanTravels(Fit(f.symbol));
      LoneVenueIsReached(o);
      FatalIff(LoneVenue(o), f, priceOf);
    }
  }

  lemma {:induction false} SafeIsNotFatal(m: Venue, f: OrderForm, priceOf: PriceReader)
    requires AllOpen(m) && KeysTravel(m) && |f.priceBits| == 8 && NameIsSafe(f)
    ensures !Fatal(m, true, OrderFrame(f), priceOf)
  {
    hide OrderFrame, Fatal, Clean, Fit, WireName, Eligible, Travels, NewOrder;
    FatalIff(m, f, priceOf);
    var o := Arriving(f, priceOf);
    if Eligible(BookOf(m, o.symbol), o) > 0 {
      ReachedBookExists(m, o);
    }
  }

  /** What of a symbol fits into its field. */
  function Cut(symbol: Bytes): Bytes {
    if |symbol| > SYMBOL_SIZE then symbol[..SYMBOL_SIZE] else symbol
  }

  /** Under a symbol without NUL the name is safe if and only if, cut to its field, it survives cleaning and
      is shorter than the field or in a buy. */
  lemma {:induction false} PlainNameIsSafeIff(f: OrderForm)
    requires 0 !in f.symbol
    ensures NameIsSafe(f) <==> Travels(Cut(f.symbol)) && (f.buy || |Cut(f.symbol)| < SYMBOL_SIZE)
  {
    hide Clean, UpToZero;
    var cut := Cut(f.symbol);
    var raw := Fit(f.symbol);
    assert raw == Fit(cut);
    SymbolSurvivesIff(cut);
    NoZeroNoEnd(cut);
    if |cut| < SYMBOL_SIZE {
      UpToZeroSnoc(cut, 0);
      var rest := raw[|cut| + 1..] + if f.buy then [0] else [];
      assert raw + (if f.buy then [0] else []) == (cut + [0]) + rest;
      UpToZeroStays(cut + [0], rest);
    } else {
      assert raw == cut && raw + [] == raw;
      UpToZeroSnoc(cut, 0);
    }
  }

  lemma {:induction false} NoZeroNoEnd(s: Bytes)
    requires 0 !in s
    ensures UpToZero(s).None?
  {
    if s != [] {
      NoZeroNoEnd(s[1..]);
    }
  }

  // ---------------------------------------------------------------- safe orders are served

  lemma {:induction false} StepKeysTravel(m: Venue, o: Order)
    requires AllOpen(m) && KeysTravel(m) && o.filled == 0 && Travels(o.symbol)
    ensures KeysTravel(NewOrder(m, o).0)
  {
    hide Handle, Travels, IsValidOrder;
  }

  predicate SafeForms(forms: seq<OrderForm>) {
    forall i :: 0 <= i < |forms| ==> |forms[i].priceBits| == 8 && NameIsSafe(forms[i])
  }

  lemma {:induction false} SafeFrames(m: Venue, forms: seq<OrderForm>, priceOf: PriceReader)
    requires AllOpen(m) && KeysTravel(m) && SafeForms(forms)
    ensures Safe(m, true, Frames(forms), priceOf)
    decreases forms
  {
    hide OrderFrame, Arriving, Fatal, PacketEffect, Travels, NameIsSafe, NewOrder, KeysTravel, AllOpen;
    if forms != [] {
      FramesTail(forms, priceOf);
      SafeIsNotFatal(m, forms[0], priceOf);
      FrameMeans(forms[0], priceOf);
      var o := Arriving(forms[0], priceOf);
      ArrivingIs(forms[0], priceOf);
      RunOne(m, [New(o)]);
      StepKeysTravel(m, o);
      SafeFrames(NewOrder(m, o).0, forms[1..], priceOf);
    }
  }

  lemma {:induction false} ArrivingIs(f: OrderForm, priceOf: PriceReader)
    ensures Arriving(f, priceOf).filled == 0 && Travels(Arriving(f, priceOf).symbol)
  {
    hide Clean, Fit, Travels;
    CleanTravels(Fit(f.symbol));
  }

  lemma {:induction false} FramesAreWhole(forms: seq<OrderForm>)
    requires SafeForms(forms)
    ensures forall i :: 0 <= i < |forms| ==>
      |Frames(forms)[i]| >= HEADER_SIZE && MsgLen(Frames(forms)[i]) == |Frames(forms)[i]| <= MAX_PACKET
  {
    hide MsgLen, OrderFrame, NameIsSafe;
    forall i | 0 <= i < |forms| ensures |Frames(forms)[i]| == NEW_ORDER_SIZE == MsgLen(Frames(forms)[i]) {
      FrameIsOrder(forms[i]);
    }
  }

  /** Orders framed under safe names, however the stream is cut into reads, are all performed: the process
      lives on, with the engine where these orders lead and nothing left in the session's buffer. */
  lemma {:induction false} SafeOrdersAreServed(g: Gateway, fd: int, forms: seq<OrderForm>, chunks: seq<Bytes>,
      priceOf: PriceReader)
    requires AllOpen(g.venue) && KeysTravel(g.venue) && !g.crashed && SessionOf(g, fd) == Session(true, [])
    requires SafeForms(forms) && chunks != [] && Concat(chunks) == Concat(Frames(forms))
    ensures var g' := After(g, Reads(fd, chunks), priceOf);
      && !g'.crashed && SessionOf(g', fd) == Session(true, [])
      && g'.performed == g.performed + ArrivingOps(forms, priceOf)
      && g'.venue == Run(g.venue, ArrivingOps(forms, priceOf))
  {
    hide Concat, Frames, ArrivingOps, After, SessionEffect, Run, KeysTravel, NameIsSafe, MsgLen, Admissible;
    FramesAreWhole(forms);
    SafeFrames(g.venue, forms, priceOf);
    FramesMean(forms, priceOf);
    StreamIsServed(g, fd, Frames(forms), chunks, priceOf);
  }

  lemma {:induction false} LoginMeans(p: Bytes, m: Venue, packets: seq<Bytes>, priceOf: PriceReader)
    requires AllOpen(m) && WellSized(p) && MsgType(p) == LOGIN_REQUEST
    ensures SessionEffect(false, [p] + packets, priceOf) == SessionEffect(true, packets, priceOf)
    ensures Safe(m, false, [p] + packets, priceOf) <==> Safe(m, true, packets, priceOf)
    ensures AllWellSized([p] + packets) <==> AllWellSized(packets)
  {
    hide Run, AllWellSized;
    AllWellSizedCons(p, packets);
    RunOne(m, []);
    assert ([p] + packets)[1..] == packets;
    var later := SessionEffect(true, packets, priceOf);
    assert [] + later.ops == later.ops && [] + later.log == later.log;
  }

  /** All the way: orders placed one after the other at a fresh Python gateway, under safe names, reach a
      fresh engine behind a new connection, however the stream is cut.  The engine ends where these orders,
      numbered from 1, lead; the process lives on and nothing happened outside the model. */
  lemma {:induction false} PlacedOrdersAreExecuted(capacity: nat, fd: int, requests: seq<Request>, chunks: seq<Bytes>,
      priceOf: PriceReader)
    requires |requests| < WRAP && Packable(requests) && SafeForms(FormsOf(requests, 0))
    requires chunks != [] && Concat(chunks) == LoginFrame() + Concat(Frames(FormsOf(requests, 0)))
    ensures var ops := ArrivingOps(FormsOf(requests, 0), priceOf);
      var g := Happen(Boot(capacity, [], false, priceOf), Opened(fd), priceOf);
      var g' := After(g, Reads(fd, chunks), priceOf);
      && WellPosed(ops) && g'.venue == Run(Start(capacity), ops)
      && !g'.crashed && !g'.outside && SessionOf(g', fd) == Session(true, [])
  {
    hide Concat, Frames, ArrivingOps, After, SessionEffect, Run, Safe, MsgLen, LoginFrame, FormsOf, Numbered,
         WellPosed, Admissible, NameIsSafe, WellSized, AllWellSized, MsgType, Travels;
    var forms, g := FormsOf(requests, 0), Happen(Boot(capacity, [], false, priceOf), Opened(fd), priceOf);
    var frames := Frames(forms);
    FormsAreNumbered(requests, 0);
    OrdersArriveAsMeant(forms, [], priceOf);
    WellPosedIsAdmissible(capacity, ArrivingOps(forms, priceOf));
    FramesAreWhole(forms);
    FramesMean(forms, priceOf);
    SafeFrames(Start(capacity), forms, priceOf);
    LoginIsSound();
    LoginMeans(LoginFrame(), Start(capacity), frames, priceOf);
    ConcatCons(LoginFrame(), frames);
    StreamIsServed(g, fd, [LoginFrame()] + frames, chunks, priceOf);
    SizedFrames(frames);
  }

  lemma {:induction false} SizedFrames(frames: seq<Bytes>)
    requires forall i :: 0 <= i < |frames| ==> WellSized(frames[i])
    ensures AllWellSized(frames)
  {
  }

  lemma {:induction false} LoginIsSound()
    ensures var p := LoginFrame(); |p| == 45 == MsgLen(p) && MsgType(p) == LOGIN_REQUEST && WellSized(p)
  {
    hide MsgLen, LoginFrame;
    LoginFrameIs();
  }

  // ---------------------------------------------------------------- inputs on which the process ends

  lemma {:induction false} SecondReachesFirst(m: Venue, first: Order, second: Order)
    requires BookOf(m, second.symbol) == [first] && first.IsOpen() && first.side == second.side.Opposite()
    requires WouldTrade(second, first.price)
    ensures Eligible(BookOf(m, second.symbol), second) == first.Left() > 0
  {
    var f := IsEligible(second.side, second.kind, second.price);
    assert f(first) && [first][1..] == [];
    assert Filter([first], f) == [first];
    assert Total([first]) == first.Left();
  }

  /** Two orders that trade with each other, the second under an unsafe name, end the process of a fresh
      engine and a logged-in session. */
  lemma {:induction false} PairEndsTheGateway(capacity: nat, fd: int, first: OrderForm, second: OrderForm,
      priceOf: PriceReader)
    requires capacity >= 2 && |first.priceBits| == 8 && |second.priceBits| == 8 && !NameIsSafe(second)
    requires var a, b := Arriving(first, priceOf), Arriving(second, priceOf);
      && IsValidOrder(a) && a.kind.Limit? && IsValidOrder(b) && a.symbol == b.symbol && a.side == b.side.Opposite()
      && WouldTrade(b, a.price)
    ensures var g := Boot(capacity, [], false, priceOf).(sessions := map[fd := Session(true, [])]);
      Receive(g, fd, Concat(Frames([first, second])), priceOf).crashed
  {
    hide Parse, Dispatch, OrderFrame, Frames, Concat, MsgLen, Safe, Clean, Fit, Took, Run, NameIsSafe, Meant,
         IsValidOrder, WouldTrade;
    var g := Boot(capacity, [], false, priceOf).(sessions := map[fd := Session(true, [])]);
    var frames := Frames([first, second]);
    FrameIsOrder(first);
    FrameIsOrder(second);
    ParseFrames(MAX_PACKET, frames);
    SecondIsFatal(capacity, first, second, priceOf);
    assert [] + Concat(frames) == Concat(frames);
    DispatchIsSession(Appended(g, fd, Concat(frames)), fd, priceOf);
  }

  lemma {:induction false} SecondIsFatal(capacity: nat, first: OrderForm, second: OrderForm, priceOf: PriceReader)
    requires capacity >= 2 && |first.priceBits| == 8 && |second.priceBits| == 8 && !NameIsSafe(second)
    requires var a, b := Arriving(first, priceOf), Arriving(second, priceOf);
      && IsValidOrder(a) && a.kind.Limit? && IsValidOrder(b) && a.symbol == b.symbol && a.side == b.side.Opposite()
      && WouldTrade(b, a.price)
    ensures !Safe(Start(capacity), true, Frames([first, second]), priceOf)
  {
    hide OrderFrame, Fatal, PacketEffect, Clean, Fit, Run, NewOrder, Travels, WireName, Eligible, Meant, IsValidOrder,
         WouldTrade;
    var forms, a, b := [first, second], Arriving(first, priceOf), Arriving(second, priceOf);
    FramesTail(forms, priceOf);
    FrameMeans(first, priceOf);
    var m := Run(Start(capacity), [New(a)]);
    ArrivingIs(first, priceOf);
    ValidIsOpen(a);
    LoneOrderRests(capacity, a);
    StepKeysTravel(Start(capacity), a);
    RunOne(Start(capacity), [New(a)]);
    SecondReachesFirst(m, a, b);
    FatalIff(m, second, priceOf);
    assert forms[1..] == [second] && Frames([second])[0] == OrderFrame(second);
  }

  lemma {:induction false} ValidIsOpen(o: Order)
    requires IsValidOrder(o) && o.filled == 0
    ensures o.IsOpen()
  {
  }

  /** ABCDEFGHIJ, ABCD, AB and CD around a NUL, and the eight bytes of the price 100.0. */
  const TEN_BYTES: Bytes := [65, 66, 67, 68, 69, 70, 71, 72, 73, 74]
  const FOUR_BYTES: Bytes := [65, 66, 67, 68]
  const WITH_NUL: Bytes := [65, 66, 0, 67, 68]
  const HUNDRED: Bytes := [0, 0, 0, 0, 0, 0, 0x59, 0x40]

  function Form(id: u64, symbol: Bytes, buy: bool): OrderForm {
    OrderForm(id, id, symbol, buy, false, HUNDRED, 10)
  }

  lemma {:induction false} NulIsRemoved()
    ensures Clean(Fit(WITH_NUL)) == FOUR_BYTES && Clean(Fit(FOUR_BYTES)) == FOUR_BYTES
    ensures WireName(Form(2, WITH_NUL, true)) == Some([65, 66])
  {
    hide Clean, Fit;
    SymbolSurvivesIff(FOUR_BYTES);
    CleanedNul();
    hide UpToZero;
    NoZeroNoEnd([65, 66]);
    UpToZeroSnoc([65, 66], 0);
    assert [65, 66] + [0] == [65, 66, 0];
    FitWithNul();
    UpToZeroStays([65, 66, 0], [67, 68, 0, 0, 0, 0, 0, 0]);
  }

  lemma {:induction false} FitWithNul()
    ensures Fit(WITH_NUL) == [65, 66, 0] + [67, 68] + [0, 0, 0, 0, 0]
    ensures Fit(WITH_NUL) + [0] == [65, 66, 0] + [67, 68, 0, 0, 0, 0, 0, 0]
  {
  }

  lemma {:induction false} CleanedNul()
    ensures Clean(Fit(WITH_NUL)) == FOUR_BYTES
  {
    hide RemoveNul, TrimRight;
    FitWithNul();
    var zeros := [0, 0, 0, 0, 0];
    RemoveNulConcat([65, 66, 0] + [67, 68], zeros);
    RemoveNulConcat([65, 66, 0], [67, 68]);
    RemoveNulConcat([65, 66], [0]);
    assert [65, 66] + [0] == [65, 66, 0];
    RemoveNulIs([65, 66]);
    RemoveNulIs([0]);
    RemoveNulIs([67, 68]);
    RemoveNulIs(zeros);
    assert RemoveNul(Fit(WITH_NUL)) == FOUR_BYTES;
    TrimRightIs(FOUR_BYTES);
  }

  /** A sell under the ten bytes ABCDEFGHIJ, at the price of the buy that rests there. */
  lemma {:induction false} TenByteSellEndsTheGateway(capacity: nat, fd: int, priceOf: PriceReader)
    requires capacity >= 2 && priceOf(HUNDRED) == 100.0
    ensures Travels(TEN_BYTES)
    ensures var g := Boot(capacity, [], false, priceOf).(sessions := map[fd := Session(true, [])]);
      Receive(g, fd, Concat(Frames([Form(1, TEN_BYTES, true), Form(2, TEN_BYTES, false)])), priceOf).crashed
  {
    hide Receive, Frames, Concat, Clean, Fit, NameIsSafe;
    SymbolSurvivesIff(TEN_BYTES);
    PlainNameIsSafeIff(Form(2, TEN_BYTES, false));
    PairEndsTheGateway(capacity, fd, Form(1, TEN_BYTES, true), Form(2, TEN_BYTES, false), priceOf);
  }

  /** A buy for AB, NUL, CD, which trades in the book ABCD while no book AB exists. */
  lemma {:induction false} NulSymbolEndsTheGateway(capacity: nat, fd: int, priceOf: PriceReader)
    requires capacity >= 2 && priceOf(HUNDRED) == 100.0
    ensures var g := Boot(capacity, [], false, priceOf).(sessions := map[fd := Session(true, [])]);
      Receive(g, fd, Concat(Frames([Form(1, FOUR_BYTES, false), Form(2, WITH_NUL, true)])), priceOf).crashed
  {
    hide Receive, Frames, Concat, Clean, Fit, WireName;
    NulIsRemoved();
    PairEndsTheGateway(capacity, fd, Form(1, FOUR_BYTES, false), Form(2, WITH_NUL, true), priceOf);
  }
}
