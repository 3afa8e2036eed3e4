/** The byte protocol between the gateways: little-endian fields, length-prefixed packets, and the
    reassembly of packets from a byte stream. */
module Wire {
  import opened Types

  type Bytes = seq<byte>

  // ---------------------------------------------------------------- little-endian fields

  function Pow256(width: nat): nat {
    if width == 0 then 1 else 256 * Pow256(width - 1)
  }

  function ToLE(n: nat, width: nat): (b: Bytes)
    ensures |b| == width
    decreases width
  {
    if width == 0 then [] else [n % 256] + ToLE(n / 256, width - 1)
  }

  function FromLE(b: Bytes): nat {
    if b == [] then 0 else b[0] + 256 * FromLE(b[1..])
  }

  /** Writing a number that fits and reading it back. */
  lemma {:induction false} FromToLE(n: nat, width: nat)
    requires n < Pow256(width)
    ensures FromLE(ToLE(n, width)) == n
    decreases width
  {
    if width > 0 {
      FromToLE(n / 256, width - 1);
      assert ToLE(n, width)[1..] == ToLE(n / 256, width - 1);
    }
  }

  lemma {:induction false} FromLEBound(b: Bytes)
    ensures FromLE(b) < Pow256(|b|)
  {
    if b != [] {
      FromLEBound(b[1..]);
    }
  }

  lemma {:induction false} Pow256Values()
    ensures Pow256(2) == 0x1_0000 && Pow256(8) == WRAP
  {
    assert Pow256(4) == 0x1_0000_0000;
    assert Pow256(8) == 256 * (256 * (256 * (256 * Pow256(4))));
  }

  lemma {:induction false} MulMonotone(d: nat, x: int, y: int)
    requires x <= y
    ensures d * x <= d * y
  {
    assert d * (y - x) == d * y - d * x;
  }

  lemma {:induction false} LessFromProducts(d: nat, x: int, y: int)
    requires d > 0 && d * x < d * y + d
    ensures x <= y
  {
    if x > y {
      MulMonotone(d, y + 1, x);
    }
  }

  lemma {:induction false} QuotientIs(n: nat, d: nat, q: int, r: nat)
    requires d > 0 && n == d * q + r && r < d
    ensures n / d == q
  {
    var x := n / d;
    assert d * x <= n < d * x + d;
    LessFromProducts(d, x, q);
    LessFromProducts(d, q, x);
  }

  lemma {:induction false} DivideTwice(n: nat, b: nat)
    requires b > 0
    ensures n / 256 / b == n / (256 * b)
  {
    var q, r := n / 256, n % 256;
    var q', r' := q / b, q % b;
    var p := b * q';
    assert q == p + r' && (256 * b) * q' == 256 * p;
    QuotientIs(n, 256 * b, q', 256 * r' + r);
  }

  lemma {:induction false} PowPositive(width: nat)
    ensures Pow256(width) > 0
  {
    if width > 0 {
      PowPositive(width - 1);
    }
  }

  /** The least significant byte comes first: byte k is digit k of the number to the base 256. */
  lemma {:induction false} ToLEAt(n: nat, width: nat, k: nat)
    requires k < width
    ensures Pow256(k) > 0 && ToLE(n, width)[k] == n / Pow256(k) % 256
    decreases width
  {
    PowPositive(k);
    if k > 0 {
      ToLEAt(n / 256, width - 1, k - 1);
      PowPositive(k - 1);
      DivideTwice(n, Pow256(k - 1));
    }
  }

  lemma {:induction false} FromLEPair(b: Bytes)
    requires |b| == 2
    ensures FromLE(b) == b[0] as int + 256 * b[1] as int
  {
    assert b[1..][1..] == [] && b[1..][0] == b[1];
    assert FromLE(b[1..]) == b[1] as int + 256 * FromLE(b[1..][1..]);
  }

  function U64At(b: Bytes, at: nat): u64
    requires at + 8 <= |b|
  {
    FromLEBound(b[at..at + 8]);
    Pow256Values();
    FromLE(b[at..at + 8])
  }

  // ---------------------------------------------------------------- packets

  const HEADER_SIZE: nat := 5

  /** The length field of the header, which covers the whole packet. */
  function MsgLen(b: Bytes): nat
    requires |b| >= HEADER_SIZE
  {
    FromLE(b[3..5])
  }

  function MsgType(b: Bytes): byte
    requires |b| >= HEADER_SIZE
  {
    b[2]
  }

  /** A packet as the Python gateway sends it: sequence number 0, type, total length, payload. */
  function Frame(msgType: byte, payload: Bytes): Bytes {
    ToLE(0, 2) + [msgType] + ToLE(HEADER_SIZE + |payload|, 2) + payload
  }

  lemma {:induction false} FrameHeader(msgType: byte, payload: Bytes, tail: Bytes)
    requires HEADER_SIZE + |payload| < 0x1_0000
    ensures var f := Frame(msgType, payload);
      && |f| == HEADER_SIZE + |payload|
      && MsgLen(f + tail) == |f| && MsgType(f) == msgType
      && f[HEADER_SIZE..] == payload
  {
    var f := Frame(msgType, payload);
    assert (f + tail)[3..5] == ToLE(HEADER_SIZE + |payload|, 2);
    Pow256Values();
    FromToLE(HEADER_SIZE + |payload|, 2);
  }

  /** The five bytes of the header: two zeros, the type, and the whole packet's length, low byte first. */
  lemma {:induction false} FrameBytes(msgType: byte, payload: Bytes)
    requires 5 + |payload| < 0x1_0000
    ensures Frame(msgType, payload) == [0, 0, msgType, (5 + |payload|) % 256, (5 + |payload|) / 256] + payload
  {
    var n := 5 + |payload|;
    assert ToLE(0, 2) == [0, 0] by {
      ToLEPair(0);
    }
    ToLEPair(n);
  }

  lemma {:induction false} ToLEPair(n: nat)
    requires n < 0x1_0000
    ensures ToLE(n, 2) == [n % 256, n / 256]
  {
    assert ToLE(n / 256, 1) == [n / 256 % 256] + ToLE(n / 256 / 256, 0);
  }

  // ---------------------------------------------------------------- reassembly

  datatype Parsed = Parsed(packets: seq<Bytes>, rest: Bytes)

  /** The header at the front of the buffer announces a length nobody will act on. */
  predicate Stuck(maxLen: nat, b: Bytes) {
    |b| >= HEADER_SIZE && (MsgLen(b) > maxLen || MsgLen(b) < HEADER_SIZE)
  }

  predicate HasPacket(maxLen: nat, b: Bytes) {
    |b| >= HEADER_SIZE && !Stuck(maxLen, b) && |b| >= MsgLen(b)
  }

  /** Cut packets off the front as long as whole ones are there; a bad length stops everything. */
  function Parse(maxLen: nat, b: Bytes): Parsed
    decreases |b|
  {
    if !HasPacket(maxLen, b) then Parsed([], b)
    else
      var more := Parse(maxLen, b[MsgLen(b)..]);
      Parsed([b[..MsgLen(b)]] + more.packets, more.rest)
  }

  lemma {:induction false} HeaderAhead(maxLen: nat, a: Bytes, b: Bytes)
    requires HasPacket(maxLen, a)
    ensures HasPacket(maxLen, a + b) && MsgLen(a + b) == MsgLen(a)
    ensures (a + b)[..MsgLen(a)] == a[..MsgLen(a)] && (a + b)[MsgLen(a)..] == a[MsgLen(a)..] + b
  {
    hide FromLE;
    assert (a + b)[3..5] == a[3..5];
  }

  lemma {:induction false} ParseOne(maxLen: nat, b: Bytes)
    ensures HasPacket(maxLen, b) ==>
      var more := Parse(maxLen, b[MsgLen(b)..]);
      Parse(maxLen, b) == Parsed([b[..MsgLen(b)]] + more.packets, more.rest)
    ensures !HasPacket(maxLen, b) ==> Parse(maxLen, b) == Parsed([], b)
  {
  }

  /** With a length of five to a limit in its fourth and fifth byte, a stream begins with the packet of that
      length as soon as it is there; with any other length it never gives a packet. */
  lemma {:induction false} HeaderDecides(maxLen: nat, b: Bytes)
    ensures |b| < 5 ==> Parse(maxLen, b) == Parsed([], b)
    ensures |b| >= 5 ==>
      var n := b[3] as int + 256 * b[4] as int;
      if 5 <= n <= maxLen && n <= |b|
      then Parse(maxLen, b) == Parsed([b[..n]] + Parse(maxLen, b[n..]).packets, Parse(maxLen, b[n..]).rest)
      else Parse(maxLen, b) == Parsed([], b)
  {
    hide Parse, FromLE;
    ParseOne(maxLen, b);
    if |b| >= 5 {
      FromLEPair(b[3..5]);
    }
  }

  /** Parsing what is left of one read together with the next is parsing the two reads together. */
  lemma {:induction false} ParseInTwo(maxLen: nat, a: Bytes, b: Bytes)
    ensures var first := Parse(maxLen, a);
      var second := Parse(maxLen, first.rest + b);
      Parse(maxLen, a + b) == Parsed(first.packets + second.packets, second.rest)
    decreases |a|
  {
    hide Parse, MsgLen;
    ParseOne(maxLen, a);
    if HasPacket(maxLen, a) {
      HeaderAhead(maxLen, a, b);
      var n := MsgLen(a);
      ParseOne(maxLen, a + b);
      ParseInTwo(maxLen, a[n..], b);
      var more := Parse(maxLen, a[n..]);
      SeqAssociates([a[..n]], more.packets, Parse(maxLen, more.rest + b).packets);
    } else {
      assert [] + Parse(maxLen, a + b).packets == Parse(maxLen, a + b).packets;
    }
  }

  function Concat(chunks: seq<Bytes>): Bytes {
    if chunks == [] then [] else chunks[0] + Concat(chunks[1..])
  }

  lemma {:induction false} ConcatCons(chunk: Bytes, chunks: seq<Bytes>)
    ensures Concat([chunk] + chunks) == chunk + Concat(chunks)
  {
    assert ([chunk] + chunks)[1..] == chunks;
  }

  lemma {:induction false} ConcatSnoc(chunks: seq<Bytes>, chunk: Bytes)
    ensures Concat(chunks + [chunk]) == Concat(chunks) + chunk
  {
    if chunks == [] {
      assert [] + [chunk] == [chunk] && [chunk][1..] == [];
      assert [] + chunk == chunk + [];
    } else {
      ConcatSnoc(chunks[1..], chunk);
      assert (chunks + [chunk])[1..] == chunks[1..] + [chunk];
      SeqAssociates(chunks[0], Concat(chunks[1..]), chunk);
    }
  }

  lemma {:induction false} ConcatNothing()
    ensures Concat([]) == []
  {
  }

  lemma {:induction false} ConcatSplit(chunks: seq<Bytes>)
    requires chunks != []
    ensures Concat(chunks) == chunks[0] + Concat(chunks[1..])
  {
  }

  /** Reading chunk after chunk, keeping the unconsumed suffix between reads. */
  function Feed(maxLen: nat, buffer: Bytes, chunks: seq<Bytes>): Parsed
    decreases |chunks|
  {
    if chunks == [] then Parsed([], buffer)
    else
      var now := Parse(maxLen, buffer + chunks[0]);
      var later := Feed(maxLen, now.rest, chunks[1..]);
      Parsed(now.packets + later.packets, later.rest)
  }

  /** Reassembly does not depend on how the stream was cut into reads. */
  lemma {:induction false} ChunkingIsIrrelevant(maxLen: nat, buffer: Bytes, chunks: seq<Bytes>)
    requires !HasPacket(maxLen, buffer)
    ensures Feed(maxLen, buffer, chunks) == Parse(maxLen, buffer + Concat(chunks))
    decreases |chunks|
  {
    if chunks == [] {
      assert buffer + [] == buffer;
    } else {
      hide Parse, Concat, HasPacket;
      var now := Parse(maxLen, buffer + chunks[0]);
      ParseLeavesNoPacket(maxLen, buffer + chunks[0]);
      ChunkingIsIrrelevant(maxLen, now.rest, chunks[1..]);
      ParseInTwo(maxLen, buffer + chunks[0], Concat(chunks[1..]));
      ConcatSplit(chunks);
      SeqAssociates(buffer, chunks[0], Concat(chunks[1..]));
    }
  }

  lemma {:induction false} ParseLeavesNoPacket(maxLen: nat, b: Bytes)
    ensures !HasPacket(maxLen, Parse(maxLen, b).rest)
    decreases |b|
  {
    hide FromLE;
    if HasPacket(maxLen, b) {
      ParseLeavesNoPacket(maxLen, b[MsgLen(b)..]);
    }
  }

  /** Packets and unconsumed suffix together are the bytes received, none lost and none invented. */
  lemma {:induction false} ParseConserves(maxLen: nat, b: Bytes)
    ensures Concat(Parse(maxLen, b).packets) + Parse(maxLen, b).rest == b
    decreases |b|
  {
    hide Parse, MsgLen, Concat;
    ParseOne(maxLen, b);
    if HasPacket(maxLen, b) {
      var n := MsgLen(b);
      var more := Parse(maxLen, b[n..]);
      ParseConserves(maxLen, b[n..]);
      ConcatCons(b[..n], more.packets);
      SeqAssociates(b[..n], Concat(more.packets), more.rest);
      assert b[..n] + b[n..] == b;
    } else {
      ConcatNothing();
      assert [] + b == b;
    }
  }

  /** After a bad length nothing is ever dispatched again, whatever arrives. */
  lemma {:induction false} StuckForever(maxLen: nat, b: Bytes, more: Bytes)
    requires Stuck(maxLen, b)
    ensures Parse(maxLen, b + more) == Parsed([], b + more)
  {
    assert (b + more)[3..5] == b[3..5];
  }

  /** A stream of frames parses back into the frames. */
  lemma {:induction false} ParseFrames(maxLen: nat, frames: seq<Bytes>)
    requires forall i :: 0 <= i < |frames| ==>
      |frames[i]| >= HEADER_SIZE && MsgLen(frames[i]) == |frames[i]| <= maxLen
    ensures Parse(maxLen, Concat(frames)) == Parsed(frames, [])
  {
    if frames != [] {
      var b, rest := Concat(frames), Concat(frames[1..]);
      assert b[3..5] == frames[0][3..5];
      assert b[..|frames[0]|] == frames[0] && b[|frames[0]|..] == rest;
      ParseFrames(maxLen, frames[1..]);
      assert [frames[0]] + frames[1..] == frames;
    }
  }
}
