/** Whole lives of the gateway process: what the engine went through, how reads may be cut, and what the
    event log brings back after a restart. */
module GatewayRuns {
  import opened Types
  import opened NaiveBook
  import opened SweepLaws
  import opened ReferenceEngine
  import opened ReferenceRuns
  import opened ReferenceTrades
  import opened Wire
  import opened OrderMessages
  import opened GatewayModel

  // ---------------------------------------------------------------- nothing is undone

  lemma {:induction false} OutsideStays(g: Gateway, fd: int, priceOf: PriceReader)
    requires AllOpen(g.venue) && g.outside
    ensures Dispatch(g, fd, priceOf).outside
    decreases |SessionOf(g, fd).buffer|
  {
    hide MsgLen, Run, PacketEffect, PacketReports, Fatal, Admissible, WellSized;
    var buffer := SessionOf(g, fd).buffer;
    if !g.crashed && HasPacket(MAX_PACKET, buffer) {
      var len := MsgLen(buffer);
      var next := Deliver(g, fd, buffer[..len], priceOf);
      if !next.crashed {
        OutsideStays(WithBuffer(next, fd, buffer[len..]), fd, priceOf);
      }
    }
  }

  lemma {:induction false} OutsideStaysAfter(g: Gateway, events: seq<Event>, priceOf: PriceReader)
    requires AllOpen(g.venue) && g.outside
    ensures After(g, events, priceOf).outside
    decreases events
  {
    hide Dispatch;
    if events != [] {
      if !g.crashed && events[0].Read? {
        var fd := events[0].fd;
        OutsideStays(Appended(g, fd, events[0].data), fd, priceOf);
      }
      OutsideStaysAfter(Happen(g, events[0], priceOf), events[1..], priceOf);
    }
  }

  /** The length in bytes 3 and 4 of the buffer decides: below 5 or above 1024 it stops the connection's
      dispatching for good, otherwise the packet is delivered as soon as it is there. */
  lemma {:induction false} LengthDecides(g: Gateway, fd: int, priceOf: PriceReader)
    requires AllOpen(g.venue) && !g.crashed && |SessionOf(g, fd).buffer| >= 5
    ensures var b := SessionOf(g, fd).buffer;
      var n := b[3] as int + 256 * b[4] as int;
      Dispatch(g, fd, priceOf)
      == if n < 5 || n > 1024 || |b| < n then g
         else
           var next := Deliver(g, fd, b[..n], priceOf);
           if next.crashed then next else Dispatch(WithBuffer(next, fd, b[n..]), fd, priceOf)
  {
    hide FromLE, Deliver, WithBuffer, AllOpen;
    FromLEPair(SessionOf(g, fd).buffer[3..5]);
  }

  // ---------------------------------------------------------------- invariants of every life

  /** The engine stands where the operations made on it lead, and as long as nothing lay outside the model
      they are an admissible run, of orders whose symbols can travel. */
  predicate RunsTheOps(m: Venue, g: Gateway)
    requires AllOpen(m)
  {
    && Unfilled(g.performed) && g.venue == Run(m, g.performed)
    && (!g.outside ==> Admissible(m, g.performed))
  }

  /** As long as nothing was cancelled, the log replays to the operations made. */
  predicate LogInStep(g: Gateway, priceOf: PriceReader) {
    NoCancels(g.performed) ==> |g.log| % NEW_ORDER_SIZE == 0 && ReplayOps(g.log, priceOf) == g.performed
  }

  /** Every book is kept under a cleaned symbol. */
  predicate KeysTravel(m: Venue) {
    forall s :: s in m.books ==> Travels(s)
  }

  /** What every life keeps; `kept` says that its log is open and was in step when it began. */
  predicate Sane(m: Venue, g: Gateway, kept: bool, priceOf: PriceReader)
    requires AllOpen(m)
  {
    && AllOpen(g.venue) && RunsTheOps(m, g) && KeysTravel(g.venue)
    && (kept ==> g.logOpen && LogInStep(g, priceOf))
  }

  lemma {:induction false} MoreOps(m: Venue, g: Gateway, ops: seq<Op>)
    requires AllOpen(m) && RunsTheOps(m, g) && Unfilled(ops)
    ensures Unfilled(g.performed + ops) && Run(m, g.performed + ops) == Run(g.venue, ops)
    ensures Admissible(m, g.performed) && Admissible(g.venue, ops) ==> Admissible(m, g.performed + ops)
  {
    hide Run, Admissible;
    assert Unfilled(g.performed + ops) by {
      forall i | 0 <= i < |g.performed + ops| && (g.performed + ops)[i].New?
        ensures (g.performed + ops)[i].order.filled == 0
      {
        if i >= |g.performed| {
          assert (g.performed + ops)[i] == ops[i - |g.performed|];
        }
      }
    }
    RunConcat(m, g.performed, ops);
    AdmissibleConcat(m, g.performed, ops);
  }

  lemma {:induction false} MoreLog(g: Gateway, loggedIn: bool, p: Bytes, priceOf: PriceReader)
    requires LogInStep(g, priceOf) && g.logOpen
    ensures var e := PacketEffect(loggedIn, p, priceOf);
      LogInStep(g.(performed := g.performed + e.ops, log := g.log + e.log), priceOf)
  {
    hide ReplayOps, PacketEffect, NoCancels;
    var e := PacketEffect(loggedIn, p, priceOf);
    NoCancelsConcat(g.performed, e.ops);
    if NoCancels(g.performed + e.ops) {
      LogRecordsTheOp(loggedIn, p, priceOf);
      ReplayAppend(g.log, e.log, priceOf);
    }
  }

  lemma {:induction false} CleanTravels(raw: Bytes)
    requires |raw| <= SYMBOL_SIZE
    ensures Travels(Clean(raw))
  {
    hide RemoveNul, TrimRight;
    RemoveNulIs(raw);
    TrimRightIs(RemoveNul(raw));
  }

  predicate OpTravels(op: Op) {
    Travels(if op.New? then op.order.symbol else op.symbol)
  }

  lemma {:induction false} EffectTravels(loggedIn: bool, p: Bytes, priceOf: PriceReader)
    ensures forall op :: op in PacketEffect(loggedIn, p, priceOf).ops ==> OpTravels(op)
  {
    hide Clean, Travels;
    if |p| >= ORDER_CANCEL_SIZE {
      CleanTravels(p[21..31]);
    }
  }

  lemma {:induction false} ReplayTravels(log: Bytes, priceOf: PriceReader)
    ensures forall op :: op in ReplayOps(log, priceOf) ==> OpTravels(op)
  {
    hide Clean, Travels;
    forall rec: Bytes | |rec| == NEW_ORDER_SIZE ensures OpTravels(New(DecodeOrder(rec, priceOf))) {
      CleanTravels(rec[21..31]);
    }
  }

  lemma {:induction false} RunKeysTravel(m: Venue, ops: seq<Op>)
    requires AllOpen(m) && Unfilled(ops) && KeysTravel(m) && forall op :: op in ops ==> OpTravels(op)
    ensures KeysTravel(Run(m, ops))
  {
    hide Handle, IndexOf, Travels, IsValidOrder;
    if ops != [] {
      var n := |ops| - 1;
      RunKeysTravel(m, ops[..n]);
      assert ops[n] in ops;
    }
  }

  lemma {:induction false} DeliverSane(m: Venue, g: Gateway, fd: int, p: Bytes, kept: bool,
      priceOf: PriceReader)
    requires AllOpen(m) && Sane(m, g, kept, priceOf)
    ensures Sane(m, Deliver(g, fd, p, priceOf), kept, priceOf)
  {
    hide Run, Admissible, PacketEffect, PacketReports, Fatal, KeysTravel, LogInStep, Unfilled, AllOpen, WellSized;
    var s := SessionOf(g, fd);
    var e := PacketEffect(s.loggedIn, p, priceOf);
    MoreOps(m, g, e.ops);
    if kept {
      MoreLog(g, s.loggedIn, p, priceOf);
      SameLog(g.(performed := g.performed + e.ops, log := g.log + e.log), Deliver(g, fd, p, priceOf), priceOf);
    }
    EffectTravels(s.loggedIn, p, priceOf);
    RunKeysTravel(g.venue, e.ops);
  }

  lemma {:induction false} SameLog(g: Gateway, g': Gateway, priceOf: PriceReader)
    requires LogInStep(g, priceOf) && g'.log == g.log && g'.performed == g.performed
    ensures LogInStep(g', priceOf)
  {
  }

  /** Sessions are not part of the invariant. */
  lemma {:induction false} SaneWith(m: Venue, g: Gateway, sessions: map<int, Session>, kept: bool,
      priceOf: PriceReader)
    requires AllOpen(m) && Sane(m, g, kept, priceOf)
    ensures Sane(m, g.(sessions := sessions), kept, priceOf)
  {
    hide Run, Admissible, KeysTravel, ReplayOps;
  }

  lemma {:induction false} DispatchSane(m: Venue, g: Gateway, fd: int, kept: bool, priceOf: PriceReader)
    requires AllOpen(m) && Sane(m, g, kept, priceOf)
    ensures Sane(m, Dispatch(g, fd, priceOf), kept, priceOf)
    decreases |SessionOf(g, fd).buffer|
  {
    hide MsgLen, Deliver, Sane;
    var buffer := SessionOf(g, fd).buffer;
    SaneIsOpen(m, g, kept, priceOf);
    if !g.crashed && HasPacket(MAX_PACKET, buffer) {
      var len := MsgLen(buffer);
      var next := Deliver(g, fd, buffer[..len], priceOf);
      DeliverSane(m, g, fd, buffer[..len], kept, priceOf);
      if !next.crashed {
        var went := WithBuffer(next, fd, buffer[len..]);
        SaneWith(m, next, went.sessions, kept, priceOf);
        DispatchSane(m, went, fd, kept, priceOf);
      }
    }
  }

  lemma {:induction false} SaneIsOpen(m: Venue, g: Gateway, kept: bool, priceOf: PriceReader)
    requires AllOpen(m) && Sane(m, g, kept, priceOf)
    ensures AllOpen(g.venue)
  {
  }

  /** The invariants hold after every life, crash or not. */
  lemma {:induction false} AfterSane(m: Venue, g: Gateway, events: seq<Event>, kept: bool, priceOf: PriceReader)
    requires AllOpen(m) && Sane(m, g, kept, priceOf)
    ensures Sane(m, After(g, events, priceOf), kept, priceOf)
    decreases events
  {
    hide Dispatch, Sane;
    SaneIsOpen(m, g, kept, priceOf);
    if events != [] {
      var next := Happen(g, events[0], priceOf);
      if !g.crashed {
        match events[0]
        case Read(fd, data) =>
          var went := Appended(g, fd, data);
          SaneWith(m, g, went.sessions, kept, priceOf);
          DispatchSane(m, went, fd, kept, priceOf);
        case _ =>
          SaneWith(m, g, next.sessions, kept, priceOf);
      }
      AfterSane(m, next, events[1..], kept, priceOf);
    }
  }

  /** The log is in step at once when the process replays it, or starts an empty one, in whole records. */
  predicate KeepsLog(file: Bytes, replay: bool) {
    |file| % NEW_ORDER_SIZE == 0 && (replay || file == [])
  }

  lemma {:induction false} BootSane(capacity: nat, file: Bytes, replay: bool, priceOf: PriceReader)
    ensures Sane(Start(capacity), Boot(capacity, file, replay, priceOf), KeepsLog(file, replay), priceOf)
  {
    hide Run, ReplayOps, Admissible, Travels;
    var ops := ReplayOps(file, priceOf);
    ReplayTravels(file, priceOf);
    assert KeysTravel(Start(capacity));
    RunKeysTravel(Start(capacity), ops);
    assert [] + ops == ops;
    NothingRuns(Start(capacity), priceOf);
  }

  lemma {:induction false} NothingRuns(m: Venue, priceOf: PriceReader)
    requires AllOpen(m)
    ensures Run(m, []) == m && Admissible(m, []) && ReplayOps([], priceOf) == []
  {
  }

  /** In every life of every process, on any log file, with any connections, reads and identifiers, and up to
      a crash: each book holds only open orders that were submitted to it, with nothing but their fill
      changed, and no bid reaches an ask; and as long as no order came to rest under an identifier that
      rested already, no book holds an identifier twice. */
  lemma {:induction false} LivesAreSound(capacity: nat, file: Bytes, replay: bool, events: seq<Event>, symbol: Symbol,
      priceOf: PriceReader)
    ensures var g := After(Boot(capacity, file, replay, priceOf), events, priceOf);
      && Sound(BookOf(g.venue, symbol), symbol, g.performed)
      && (!g.outside ==> UniqueIds(BookOf(g.venue, symbol)))
  {
    hide Run, Admissible, After, KeysTravel, LogInStep, Sound, Boot, AllUnique;
    var g := After(Boot(capacity, file, replay, priceOf), events, priceOf);
    BootSane(capacity, file, replay, priceOf);
    AfterSane(Start(capacity), Boot(capacity, file, replay, priceOf), events, KeepsLog(file, replay), priceOf);
    BooksStaySound(capacity, g.performed, symbol);
    if !g.outside {
      StartIsUnique(capacity);
      assert g.performed[..|g.performed|] == g.performed;
      AdmissibleStaysUnique(Start(capacity), g.performed, |g.performed|);
      UniqueBook(g.venue, symbol);
    }
  }

  /** And every trade of every life is between a buyer and a seller that it received, within both limits and
      at the price of the one that came first. */
  lemma {:induction false} LivesTradeFairly(capacity: nat, file: Bytes, replay: bool, events: seq<Event>, k: nat,
      priceOf: PriceReader)
    requires k < |After(Boot(capacity, file, replay, priceOf), events, priceOf).venue.history|
    ensures var g := After(Boot(capacity, file, replay, priceOf), events, priceOf);
      IsFair(g.venue.history[k], g.performed)
  {
    hide Run, Admissible, After, KeysTravel, LogInStep, Boot, IsFair;
    var g := After(Boot(capacity, file, replay, priceOf), events, priceOf);
    BootSane(capacity, file, replay, priceOf);
    AfterSane(Start(capacity), Boot(capacity, file, replay, priceOf), events, KeepsLog(file, replay), priceOf);
    HistoryIsFair(capacity, g.performed, k);
  }

  // ---------------------------------------------------------------- restart

  /** A life that replayed a file of whole records, or started an empty one, and cancelled nothing, whatever
      connections and reads it saw, and even if it ended on a null book: started again on the file it left,
      the process has the same engine, through the same operations; and a file cut off anywhere brings it
      to the state after some leading part of them. */
  lemma {:induction false} RestartRecovers(capacity: nat, file: Bytes, replay: bool, events: seq<Event>, k: nat,
      priceOf: PriceReader)
    requires KeepsLog(file, replay)
    requires var g := After(Boot(capacity, file, replay, priceOf), events, priceOf);
      NoCancels(g.performed) && !g.outside && k <= |g.log|
    ensures var g := After(Boot(capacity, file, replay, priceOf), events, priceOf);
      var again, torn := Boot(capacity, g.log, true, priceOf), Boot(capacity, g.log[..k], true, priceOf);
      && again.venue == g.venue && again.performed == g.performed && !again.outside
      && |g.log| % NEW_ORDER_SIZE == 0
      && torn.performed == g.performed[..k / NEW_ORDER_SIZE]
      && torn.venue == Run(Start(capacity), g.performed[..k / NEW_ORDER_SIZE]) && !torn.outside
  {
    hide Run, ReplayOps, Admissible, After, KeysTravel;
    var g := After(Boot(capacity, file, replay, priceOf), events, priceOf);
    BootSane(capacity, file, replay, priceOf);
    AfterSane(Start(capacity), Boot(capacity, file, replay, priceOf), events, true, priceOf);
    TruncatedReplay(g.log, k, priceOf);
    var n := k / NEW_ORDER_SIZE;
    assert g.performed == g.performed[..n] + g.performed[n..];
    AdmissibleConcat(Start(capacity), g.performed[..n], g.performed[n..]);
    assert [] + g.performed == g.performed && [] + g.performed[..n] == g.performed[..n];
  }

  // ---------------------------------------------------------------- restart after a cancel

  /** What the cancel leaves unchanged. */
  lemma {:induction false} CancelIsIdleIff(m: Venue, id: OrderID, symbol: Symbol)
    requires AllOpen(m)
    ensures CancelOrder(m, id, symbol).0 == m <==> symbol in m.books && !HasId(BookOf(m, symbol), id)
  {
    var book := BookOf(m, symbol);
    if IndexOf(book, id) == -1 && symbol in m.books {
      assert m.books[symbol := book] == m.books;
    }
  }

  lemma {:induction false} CancelIsNoRecord(log: Bytes, rec: Bytes, priceOf: PriceReader)
    requires |log| % NEW_ORDER_SIZE == 0 && |rec| < NEW_ORDER_SIZE
    ensures ReplayOps(log + rec, priceOf) == ReplayOps(log, priceOf)
  {
    hide DecodeOrder;
    RecordsAppend(log, rec);
    assert Records(log) + [] == Records(log);
  }

  /** A logged-in session's cancel is appended to a log that was in step: a restart then has the engine's
      state if and only if the cancelled order's book existed and held no such order. */
  lemma {:induction false} TrailingCancelReplaysIff(capacity: nat, g: Gateway, fd: int, p: Bytes, priceOf: PriceReader)
    requires AllOpen(g.venue) && Sane(Start(capacity), g, true, priceOf) && NoCancels(g.performed)
    requires SessionOf(g, fd).loggedIn && WellSized(p) && MsgType(p) == ORDER_CANCEL
    ensures var g' := Deliver(g, fd, p, priceOf);
      Boot(capacity, g'.log, true, priceOf).venue == g'.venue <==>
        var op := DecodeCancel(p); op.symbol in g.venue.books && !HasId(BookOf(g.venue, op.symbol), op.id)
  {
    hide Run, ReplayOps, Admissible, CancelOrder, HasId, DecodeCancel, PacketReports, KeysTravel;
    var op := DecodeCancel(p);
    assert op.Cancel? by {
      CancelDecodes(p);
    }
    CancelIsNoRecord(g.log, p[..ORDER_CANCEL_SIZE], priceOf);
    CancelIsIdleIff(g.venue, op.id, op.symbol);
    RunOne(g.venue, [op]);
  }

  lemma {:induction false} CancelDecodes(p: Bytes)
    requires |p| >= ORDER_CANCEL_SIZE
    ensures DecodeCancel(p).Cancel?
  {
  }

  // ---------------------------------------------------------------- how reads may be cut

  /** All of the state but one session, for a process that has ended. */
  function WithoutSession(g: Gateway, fd: int): Gateway {
    g.(sessions := g.sessions - {fd})
  }

  lemma {:induction false} SetTwice(sessions: map<int, Session>, fd: int, a: Session, b: Session)
    ensures sessions[fd := a][fd := b] == sessions[fd := b]
  {
  }

  lemma {:induction false} DeliverAppended(g: Gateway, fd: int, p: Bytes, rest: Bytes, more: Bytes,
      priceOf: PriceReader)
    requires AllOpen(g.venue)
    ensures Deliver(Appended(g, fd, more), fd, p, priceOf) == Appended(Deliver(g, fd, p, priceOf), fd, more)
    ensures WithBuffer(Appended(g, fd, more), fd, rest + more) == Appended(WithBuffer(g, fd, rest), fd, more)
  {
    hide Run, PacketEffect, PacketReports, Fatal, Admissible, WellSized, AllOpen, To;
    var s := SessionOf(g, fd);
    var e := PacketEffect(s.loggedIn, p, priceOf);
    SetTwice(g.sessions, fd, s.(buffer := s.buffer + more), Session(e.loggedIn, s.buffer + more));
    SetTwice(g.sessions, fd, Session(e.loggedIn, s.buffer), Session(e.loggedIn, s.buffer + more));
    SetTwice(g.sessions, fd, s.(buffer := s.buffer + more), s.(buffer := rest + more));
    SetTwice(g.sessions, fd, s.(buffer := rest), s.(buffer := rest + more));
  }

  /** Dispatching what one read completed and then what the next one completes is dispatching once. */
  lemma {:induction false} DispatchInTwo(g: Gateway, fd: int, more: Bytes, priceOf: PriceReader)
    requires AllOpen(g.venue) && !g.crashed
    ensures var once, first := Dispatch(Appended(g, fd, more), fd, priceOf), Dispatch(g, fd, priceOf);
      if first.crashed then once.crashed && WithoutSession(once, fd) == WithoutSession(first, fd)
      else once == Dispatch(Appended(first, fd, more), fd, priceOf)
    decreases |SessionOf(g, fd).buffer|
  {
    hide MsgLen, Deliver, Appended, WithBuffer;
    var buffer := SessionOf(g, fd).buffer;
    AppendedIs(g, fd, more);
    if HasPacket(MAX_PACKET, buffer) {
      HeaderAhead(MAX_PACKET, buffer, more);
      var p, rest := buffer[..MsgLen(buffer)], buffer[MsgLen(buffer)..];
      var next := Deliver(g, fd, p, priceOf);
      DeliverAppended(g, fd, p, rest, more, priceOf);
      AppendedIs(next, fd, more);
      if !next.crashed {
        DeliverAppended(next, fd, p, rest, more, priceOf);
        WithBufferIs(next, fd, rest);
        DispatchInTwo(WithBuffer(next, fd, rest), fd, more, priceOf);
      }
    }
  }

  lemma {:induction false} AppendedIs(g: Gateway, fd: int, more: Bytes)
    ensures var a := Appended(g, fd, more);
      && SessionOf(a, fd) == SessionOf(g, fd).(buffer := SessionOf(g, fd).buffer + more)
      && a.venue == g.venue && a.crashed == g.crashed && WithoutSession(a, fd) == WithoutSession(g, fd)
  {
    assert Appended(g, fd, more).sessions - {fd} == g.sessions - {fd};
  }

  lemma {:induction false} WithBufferIs(g: Gateway, fd: int, buffer: Bytes)
    ensures var a := WithBuffer(g, fd, buffer);
      SessionOf(a, fd) == SessionOf(g, fd).(buffer := buffer) && a.venue == g.venue && a.crashed == g.crashed
  {
  }

  function Reads(fd: int, chunks: seq<Bytes>): (events: seq<Event>)
    ensures |events| == |chunks|
  {
    seq(|chunks|, i requires 0 <= i < |chunks| => Read(fd, chunks[i]))
  }

  /** However a stream was cut into reads, the process is where one read of the whole would have brought
      it; of a session on which it ended, nothing is said. */
  lemma {:induction false} SplitReadsAreOneRead(g: Gateway, fd: int, chunks: seq<Bytes>, priceOf: PriceReader)
    requires AllOpen(g.venue) && !g.crashed && chunks != []
    ensures var split, whole := After(g, Reads(fd, chunks), priceOf), Receive(g, fd, Concat(chunks), priceOf);
      && split.crashed == whole.crashed
      && (if split.crashed then WithoutSession(split, fd) == WithoutSession(whole, fd) else split == whole)
    decreases |chunks|
  {
    hide Dispatch, Appended, WithBuffer;
    var now := Receive(g, fd, chunks[0], priceOf);
    assert Reads(fd, chunks)[1..] == Reads(fd, chunks[1..]) && Happen(g, Reads(fd, chunks)[0], priceOf) == now;
    ConcatSplit(chunks);
    AppendedTwice(g, fd, chunks[0], Concat(chunks[1..]));
    AppendedIs(g, fd, chunks[0]);
    DispatchInTwo(Appended(g, fd, chunks[0]), fd, Concat(chunks[1..]), priceOf);
    if now.crashed {
      CrashedStays(now, Reads(fd, chunks[1..]), priceOf);
    } else if |chunks| == 1 {
      assert chunks[0] + [] == chunks[0];
      assert Reads(fd, chunks[1..]) == [];
    } else {
      SplitReadsAreOneRead(now, fd, chunks[1..], priceOf);
    }
  }

  lemma {:induction false} CrashedStays(g: Gateway, events: seq<Event>, priceOf: PriceReader)
    requires AllOpen(g.venue) && g.crashed
    ensures After(g, events, priceOf) == g
    decreases events
  {
    hide Dispatch;
    if events != [] {
      CrashedStays(g, events[1..], priceOf);
    }
  }

  lemma {:induction false} AppendedTwice(g: Gateway, fd: int, a: Bytes, b: Bytes)
    ensures Appended(Appended(g, fd, a), fd, b) == Appended(g, fd, a + b)
  {
    var s := SessionOf(g, fd);
    SeqAssociates(s.buffer, a, b);
    assert g.sessions[fd := s.(buffer := s.buffer + a)][fd := s.(buffer := s.buffer + (a + b))]
        == g.sessions[fd := s.(buffer := s.buffer + (a + b))];
  }

  lemma {:induction false} TookFromAppended(g: Gateway, g': Gateway, fd: int, more: Bytes, packets: seq<Bytes>,
      priceOf: PriceReader)
    requires AllOpen(g.venue) && Took(Appended(g, fd, more), g', fd, packets, priceOf)
    ensures Took(g, g', fd, packets, priceOf)
  {
    hide SessionEffect, SessionReports, Run, Admissible, AllOpen, AllWellSized;
    forall other | other != fd ensures SessionOf(Appended(g, fd, more), other) == SessionOf(g, other) {
    }
  }

  /** A stream of whole packets, none of them fatal, however it is cut into reads: the session takes exactly
      these packets, and nothing is left in its buffer. */
  lemma {:induction false} StreamIsServed(g: Gateway, fd: int, packets: seq<Bytes>, chunks: seq<Bytes>,
      priceOf: PriceReader)
    requires AllOpen(g.venue) && !g.crashed && SessionOf(g, fd).buffer == []
    requires forall i :: 0 <= i < |packets| ==>
      |packets[i]| >= HEADER_SIZE && MsgLen(packets[i]) == |packets[i]| <= MAX_PACKET
    requires Safe(g.venue, SessionOf(g, fd).loggedIn, packets, priceOf)
    requires chunks != [] && Concat(chunks) == Concat(packets)
    ensures var g' := After(g, Reads(fd, chunks), priceOf);
      !g'.crashed && Took(g, g', fd, packets, priceOf) && SessionOf(g', fd).buffer == []
  {
    hide Concat, Parse, Dispatch, After, Took, MsgLen, Safe, Appended;
    SplitReadsAreOneRead(g, fd, chunks, priceOf);
    var stream := Concat(packets);
    var start := Appended(g, fd, stream);
    AppendedIs(g, fd, stream);
    assert [] + stream == stream;
    ParseFrames(MAX_PACKET, packets);
    DispatchIsSession(start, fd, priceOf);
    assert packets[..|packets|] == packets;
    TookFromAppended(g, Dispatch(start, fd, priceOf), fd, stream, packets, priceOf);
  }
}
