/** The 14-byte packets of the serial line (software/node/src/rs232.c,
    hardware/ver.2/cecs/m4_cecs_uart1.c): format, checksum and the sliding-window
    receiver, as functions on byte sequences. UartQueues holds the code that works in
    place. */
module Uart {

  const PACKET_SIZE := 14          // COMMPACKET_SIZE
  const HEADER := 0xaa55           // PACKET_HEADER, ACK_PACKET_HEADER
  const NACK_HEADER := 0x55aa      // NACK_PACKET_HEADER
  const QUEUE_SIZE := 256          // UART_DATAQUE_SIZE

  type byte = b: int | 0 <= b < 256
  type word = w: int | 0 <= w < 0x1_0000
  type window = w: seq<byte> | |w| == PACKET_SIZE witness [0, 0, 0, 0, 0, 0, 0, 0, 0, 0, 0, 0, 0, 0]

  /** The i-th 16-bit word of the packet structure, little-endian as on both processors. */
  function WordAt(w: window, i: nat): word
    requires i < 7
  {
    (w[2 * i] as int) + 256 * (w[2 * i + 1] as int)
  }

  /** The checksum of the fields, in 16 bits. */
  function Checksum(id: int, d0: int, d1: int, d2: int, d3: int): word
  {
    (id + d0 + d1 + d2 + d3) % 0x1_0000
  }

  /** The test the receivers make after every byte. */
  predicate Accepts(w: window)
  {
    && WordAt(w, 0) == HEADER
    && Checksum(WordAt(w, 1), WordAt(w, 2), WordAt(w, 3), WordAt(w, 4), WordAt(w, 5)) == WordAt(w, 6)
  }

  datatype Message = Message(id: word, d0: word, d1: word, d2: word, d3: word)

  function Bytes(w: word): seq<byte> { [w % 256, w / 256] }

  /** USART_SendPacket, USART1_SendPacket: the bytes that go on the line. */
  function Encode(header: word, m: Message): window
  {
    Bytes(header) + Bytes(m.id) + Bytes(m.d0) + Bytes(m.d1) + Bytes(m.d2) + Bytes(m.d3)
    + Bytes(Checksum(m.id, m.d0, m.d1, m.d2, m.d3))
  }

  /** What the user of an accepted packet reads. */
  function Decode(w: window): Message
  {
    Message(WordAt(w, 1), WordAt(w, 2), WordAt(w, 3), WordAt(w, 4), WordAt(w, 5))
  }

  // ------------------------------------------------------------- format and checksum

  lemma EncodedWords(header: word, m: Message)
    ensures var w := Encode(header, m);
      && WordAt(w, 0) == header && Decode(w) == m
      && WordAt(w, 6) == Checksum(m.id, m.d0, m.d1, m.d2, m.d3)
  {
    hide Checksum;
  }

  /** Round trip: a packet is accepted exactly when it carries the accepting header, and
      then it reads back as the message sent. A NACK packet is never accepted. */
  lemma EncodeDecode(header: word, m: Message)
    ensures Accepts(Encode(header, m)) <==> header == HEADER
    ensures Decode(Encode(header, m)) == m
    ensures !Accepts(Encode(NACK_HEADER, m))
  {
    hide Encode, WordAt;
    EncodedWords(header, m);
    EncodedWords(NACK_HEADER, m);
  }

  /** Conversely an accepted window is the encoding of what it reads as. */
  lemma AcceptedIsEncoded(w: window)
    requires Accepts(w)
    ensures w == Encode(HEADER, Decode(w))
  {
    hide Checksum;
    var e := Encode(HEADER, Decode(w));
    forall i: nat | i < 7 ensures w[2 * i] == e[2 * i] && w[2 * i + 1] == e[2 * i + 1] {
      assert WordAt(e, i) == WordAt(w, i) by { EncodedWords(HEADER, Decode(w)); }
      SameWordSameBytes(w, e, i);
    }
    forall k | 0 <= k < PACKET_SIZE ensures w[k] == e[k] {
      var i: nat := k / 2;
      assert k == 2 * i || k == 2 * i + 1;
    }
  }

  lemma SameWordSameBytes(a: window, b: window, i: nat)
    requires i < 7 && WordAt(a, i) == WordAt(b, i)
    ensures a[2 * i] == b[2 * i] && a[2 * i + 1] == b[2 * i + 1]
  {
  }

  /** Two sums that differ in one 16-bit term differ in 16 bits. */
  lemma ChecksumSeesTerm(a: word, b: word, rest: int)
    requires a != b
    ensures (a + rest) % 0x1_0000 != (b + rest) % 0x1_0000
  {
    var q, r := (a + rest) / 0x1_0000, (b + rest) / 0x1_0000;
    assert a - b == 0x1_0000 * (q - r) + ((a + rest) % 0x1_0000 - (b + rest) % 0x1_0000);
  }

  /** Changing any single word of an accepted window makes it rejected. */
  lemma SingleWordErrorRejected(w: window, v: window, i: nat)
    requires Accepts(w) && i < 7 && WordAt(v, i) != WordAt(w, i)
    requires forall j: nat :: j < 7 && j != i ==> WordAt(v, j) == WordAt(w, j)
    ensures !Accepts(v)
  {
    hide WordAt;
    if 1 <= i <= 5 {
      var rest := WordAt(w, 1) + WordAt(w, 2) + WordAt(w, 3) + WordAt(w, 4) + WordAt(w, 5) - WordAt(w, i);
      ChecksumSeesTerm(WordAt(v, i), WordAt(w, i), rest);
      assert WordAt(v, 1) + WordAt(v, 2) + WordAt(v, 3) + WordAt(v, 4) + WordAt(v, 5) == WordAt(v, i) + rest;
    }
  }

  // ------------------------------------------------------------- the sliding window

  const ZERO: window := [0, 0, 0, 0, 0, 0, 0, 0, 0, 0, 0, 0, 0, 0]

  /** The window moved on by one byte of the stream */
  function Shift(w: window, b: byte): window { w[1..] + [b] }

  /** The last 14 bytes of everything consumed, zeros before the first. */
  function Last14(s: seq<byte>): window { (ZERO + s)[|s|..] }

  /** The windows accepted while a stream is consumed, in order. */
  function Accepted(s: seq<byte>): seq<window>
  {
    if s == [] then []
    else Accepted(s[..|s| - 1]) + (if Accepts(Last14(s)) then [Last14(s)] else [])
  }

  /** One call of the receiver: it takes bytes until a window is accepted or none is left. */
  function Poll(w: window, q: seq<byte>): (r: (bool, window, seq<byte>))
    ensures |r.2| <= |q| && r.2 == q[|q| - |r.2|..]
    ensures r.0 ==> |r.2| < |q|
    ensures !r.0 ==> r.2 == []
    decreases |q|
  {
    if q == [] then (false, w, q)
    else
      var w1 := Shift(w, q[0]);
      if Accepts(w1) then (true, w1, q[1..]) else Poll(w1, q[1..])
  }

  lemma ShiftLast(s: seq<byte>, b: byte)
    ensures Shift(Last14(s), b) == Last14(s + [b])
  {
  }

  lemma AcceptedByte(s: seq<byte>, b: byte)
    ensures Accepted(s + [b]) == Accepted(s) + (if Accepts(Last14(s + [b])) then [Last14(s + [b])] else [])
  {
    hide Accepts, Last14;
    assert (s + [b])[..|s|] == s;
  }

  /** What a call takes from the queue. */
  function Taken(q: seq<byte>, rest: seq<byte>): seq<byte>
    requires |rest| <= |q|
  {
    q[..|q| - |rest|]
  }

  lemma TakenOneMore(s: seq<byte>, q: seq<byte>, rest: seq<byte>)
    requires |rest| < |q|
    ensures (s + [q[0]]) + Taken(q[1..], rest) == s + Taken(q, rest)
  {
  }

  /** A call of the receiver reports the next accepted window of the stream, or that the
      queued bytes complete none. */
  lemma {:induction false} PollReports(s: seq<byte>, q: seq<byte>)
    ensures var (ok, w, rest) := Poll(Last14(s), q);
      var c := s + Taken(q, rest);
      w == Last14(c) && Accepted(c) == Accepted(s) + (if ok then [w] else [])
    decreases |q|
  {
    hide Accepts, Accepted, Last14, Shift, Taken;
    var (ok, w, rest) := Poll(Last14(s), q);
    if q == [] {
      TakenNothing(s);
    } else {
      ShiftLast(s, q[0]);
      AcceptedByte(s, q[0]);
      TakenOneMore(s, q, rest);
      if Accepts(Last14(s + [q[0]])) {
        TakenNothingMore(s + [q[0]], q[1..]);
      } else {
        PollReports(s + [q[0]], q[1..]);
      }
    }
  }

  lemma TakenNothing(s: seq<byte>)
    ensures s + Taken([], []) == s
  {
  }

  lemma TakenNothingMore(s: seq<byte>, q: seq<byte>)
    ensures s + Taken(q, q) == s
  {
  }

  // ----------------------------------------------------------- runs of the receiver

  datatype Event = Push(data: byte) | Call

  /** The receiver with its queue; `sent` are the bytes the queue took, `got` the packets
      reported. */
  datatype Link = Link(win: window, queue: seq<byte>, sent: seq<byte>, got: seq<window>)

  /** A push finds room as long as fewer than 255 bytes are queued. */
  function Step(l: Link, e: Event): Link
  {
    match e
    case Push(b) =>
      if |l.queue| < QUEUE_SIZE - 1 then l.(queue := l.queue + [b], sent := l.sent + [b]) else l
    case Call =>
      var (ok, w, rest) := Poll(l.win, l.queue);
      l.(win := w, queue := rest, got := l.got + (if ok then [w] else []))
  }

  function RunLink(es: seq<Event>): Link
  {
    if es == [] then Link(ZERO, [], [], []) else Step(RunLink(es[..|es| - 1]), es[|es| - 1])
  }

  /** The bytes a schedule pushes. */
  function Pushed(es: seq<Event>): seq<byte>
  {
    if es == [] then []
    else
      var e := es[|es| - 1];
      Pushed(es[..|es| - 1]) + (if e.Push? then [e.data] else [])
  }

  /** No push of the schedule finds the queue full. */
  predicate NeverFull(es: seq<Event>)
  {
    forall k :: 0 <= k < |es| && es[k].Push? ==> |RunLink(es[..k]).queue| < QUEUE_SIZE - 1
  }

  /** The bytes still queued are the last ones sent, and the packets reported are exactly
      the accepted windows of the rest, in order. */
  predicate Exact(l: Link)
  {
    && |l.queue| <= |l.sent| && l.queue == l.sent[|l.sent| - |l.queue|..]
    && var consumed := l.sent[..|l.sent| - |l.queue|];
       l.win == Last14(consumed) && l.got == Accepted(consumed)
  }

  /** Whatever the schedule of pushes and calls, the receiver reports exactly what it should. */
  lemma {:induction false} ReceiverExact(es: seq<Event>)
    ensures Exact(RunLink(es))
  {
    hide Accepts, Accepted, Last14, Shift, Poll;
    if es == [] {
      ReceiverStart();
    } else {
      ReceiverExact(es[..|es| - 1]);
      var l := RunLink(es[..|es| - 1]);
      match es[|es| - 1]
      case Push(b) => PushKeeps(l, b);
      case Call => CallKeeps(l);
    }
  }

  lemma PushKeeps(l: Link, b: byte)
    requires Exact(l)
    ensures Exact(Step(l, Push(b)))
  {
    hide Accepts, Accepted, Last14;
    assert (l.sent + [b])[..|l.sent| - |l.queue|] == l.sent[..|l.sent| - |l.queue|];
  }

  lemma CallKeeps(l: Link)
    requires Exact(l)
    ensures Exact(Step(l, Call))
  {
    hide Accepts, Accepted, Last14, Poll, Taken;
    var n := |l.sent| - |l.queue|;
    PollReports(l.sent[..n], l.queue);
    var (ok, w, rest) := Poll(l.win, l.queue);
    TakenFromEnd(l.sent, l.queue, rest);
    assert w == Last14(l.sent[..|l.sent| - |rest|]);
  }

  lemma TakenFromEnd(s: seq<byte>, q: seq<byte>, rest: seq<byte>)
    requires |rest| <= |q| <= |s| && q == s[|s| - |q|..] && rest == q[|q| - |rest|..]
    ensures s[..|s| - |q|] + Taken(q, rest) == s[..|s| - |rest|]
    ensures rest == s[|s| - |rest|..]
  {
  }

  lemma ReceiverStart()
    ensures ZERO == Last14([]) && Accepted([]) == []
  {
  }

  /** Without overflow, once the queue is drained the packets reported are those of the
      whole pushed stream: how it was split into pushes and calls does not matter. */
  lemma {:induction false} SplitDoesNotMatter(es: seq<Event>)
    requires NeverFull(es)
    ensures RunLink(es).sent == Pushed(es)
    ensures RunLink(es).queue == [] ==> RunLink(es).got == Accepted(Pushed(es))
  {
    ReceiverExact(es);
    hide Accepts, Accepted, Last14, Shift, Poll;
    if es != [] {
      var init := es[..|es| - 1];
      assert forall k :: 0 <= k < |init| ==> init[..k] == es[..k];
      SplitDoesNotMatter(init);
    }
    var l := RunLink(es);
    if l.queue == [] { assert l.sent[..|l.sent|] == l.sent; }
  }

  lemma {:induction false} AcceptedExtends(s: seq<byte>, t: seq<byte>)
    ensures Accepted(s) <= Accepted(s + t)
  {
    hide Accepts, Last14;
    if t == [] {
      assert s + t == s;
    } else {
      AcceptedExtends(s, t[..|t| - 1]);
      assert (s + t)[..|s + t| - 1] == s + t[..|t| - 1];
    }
  }

  /** Self-synchronisation: after any garbage, and whatever follows, a packet sent in one
      piece is accepted and reads back as the message sent. */
  lemma GarbageDoesNotMatter(garbage: seq<byte>, m: Message, tail: seq<byte>)
    ensures var before := Accepted(garbage + Encode(HEADER, m)[..PACKET_SIZE - 1]);
      && before + [Encode(HEADER, m)] <= Accepted(garbage + Encode(HEADER, m) + tail)
      && Decode(Encode(HEADER, m)) == m
  {
    var p := Encode(HEADER, m);
    hide Encode, Accepts;
    EncodeDecode(HEADER, m);
    var s := garbage + p;
    assert s[..|s| - 1] == garbage + p[..PACKET_SIZE - 1];
    assert Last14(s) == p;
    assert Accepted(s) == Accepted(garbage + p[..PACKET_SIZE - 1]) + [p];
    AcceptedExtends(s, tail);
  }
}
