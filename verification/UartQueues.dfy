/** The queues and the streaming loop of the serial line, in place: ring indices, the ring
    buffer and the 14-byte window are updated byte by byte. */
module UartQueues {
  import opened Basics
  import opened Uart

  /** From one place of the ring up to another */
  function Between(ring: seq<byte>, first: nat, end: nat): (s: seq<byte>)
    requires |ring| == QUEUE_SIZE && first < QUEUE_SIZE && end < QUEUE_SIZE
    ensures |s| < QUEUE_SIZE && (s == [] <==> first == end)
    ensures |s| == QUEUE_SIZE - 1 <==> (end + 1) % QUEUE_SIZE == first
  {
    if first <= end then ring[first..end] else ring[first..] + ring[..end]
  }

  lemma PushedBetween(ring: seq<byte>, first: nat, end: nat, data: byte)
    requires |ring| == QUEUE_SIZE && first < QUEUE_SIZE && end < QUEUE_SIZE && (end + 1) % QUEUE_SIZE != first
    ensures Between(ring[end := data], first, (end + 1) % QUEUE_SIZE) == Between(ring, first, end) + [data]
  {
    var ring' := ring[end := data];
    if first <= end {
      Grown(ring, first, end, data);
      assert end + 1 == QUEUE_SIZE ==> ring'[first..] + ring'[..0] == ring'[first..end + 1];
    } else {
      Grown(ring, 0, end, data);
      assert ring'[first..] == ring[first..];
      assert ring[first..] + (ring[..end] + [data]) == ring[first..] + ring[..end] + [data];
    }
  }

  lemma Grown(s: seq<byte>, i: nat, j: nat, data: byte)
    requires i <= j < |s|
    ensures s[j := data][i..j + 1] == s[i..j] + [data]
  {
  }

  /** UART_DATAQUE: nPushIndex is the next free place, nPopIndex the oldest byte; equal
      indices mean empty, so one place always stays free. */
  class RingQueue {
    const buffer: array<byte>
    var pushIndex: nat
    var popIndex: nat

    ghost predicate Valid()
      reads this
    {
      buffer.Length == QUEUE_SIZE && pushIndex < QUEUE_SIZE && popIndex < QUEUE_SIZE
    }

    /** The bytes in the queue, oldest first. */
    ghost function Contents(): (s: seq<byte>)
      requires Valid()
      reads this, buffer
      ensures |s| < QUEUE_SIZE
    {
      Between(buffer[..], popIndex, pushIndex)
    }

    constructor ()
      ensures Valid() && Contents() == [] && fresh(buffer)
    {
      buffer := new byte[QUEUE_SIZE];
      pushIndex, popIndex := 0, 0;
    }

    /** USART_RxQuePush, USART1_RxQuePush, USART1_TxQuePush */
    method Push(data: byte) returns (ok: bool)
      requires Valid()
      modifies this`pushIndex, buffer
      ensures Valid()
      ensures ok == (|old(Contents())| < QUEUE_SIZE - 1)
      ensures Contents() == old(Contents()) + (if ok then [data] else [])
    {
      var tmp := (pushIndex + 1) % QUEUE_SIZE;
      if tmp == popIndex { return false; }
      PushedBetween(buffer[..], popIndex, pushIndex, data);
      buffer[pushIndex] := data;
      pushIndex := (pushIndex + 1) % QUEUE_SIZE;
      return true;
    }

    /** nPushIndex == nPopIndex */
    predicate Empty()
      requires Valid()
      reads this, buffer
      ensures Empty() <==> Contents() == []
    {
      pushIndex == popIndex
    }

    /** USART_RxQuePop, UARTFifoPop, USART1_RxQuePop, USART1_TxQuePop */
    method Pop() returns (ok: bool, data: byte)
      requires Valid()
      modifies this`popIndex
      ensures Valid()
      ensures ok == (old(Contents()) != [])
      ensures ok ==> old(Contents()) == [data] + Contents()
      ensures !ok ==> Contents() == []
    {
      if Empty() { return false, 0; }
      ghost var all := Contents();
      data := buffer[popIndex];
      popIndex := (popIndex + 1) % QUEUE_SIZE;
      assert all[0] == data && Contents() == all[1..];
      return true, data;
    }
  }

  /** The receiver: a queue filled by the interrupt or the reading thread, and the window. */
  class Receiver {
    const queue: RingQueue
    const streaming: array<byte>

    ghost predicate Valid()
      reads this, queue
    {
      queue.Valid() && streaming.Length == PACKET_SIZE && streaming != queue.buffer
    }

    ghost function Window(): window
      requires Valid()
      reads this, queue, streaming
    {
      streaming[..]
    }

    constructor ()
      ensures Valid() && fresh(queue) && fresh(queue.buffer) && fresh(streaming)
      ensures queue.Contents() == [] && Window() == ZERO
    {
      queue := new RingQueue();
      streaming := new byte[PACKET_SIZE](_ => 0);
    }

    /** Moves the window on by one byte of the stream. */
    method ShiftIn(nch: byte)
      requires Valid()
      modifies streaming
      ensures Window() == Shift(old(Window()), nch)
    {
      ghost var w := Window();
      for i := 0 to PACKET_SIZE - 1
        invariant forall k :: 0 <= k < i ==> streaming[k] == w[k + 1]
        invariant forall k :: i <= k < PACKET_SIZE ==> streaming[k] == w[k]
      {
        streaming[i] := streaming[i + 1];
      }
      streaming[PACKET_SIZE - 1] := nch;
    }

    /** UARTPacketStreaming, USART1_PacketStreaming: the packet is left in the window. */
    method PacketStreaming() returns (found: bool)
      requires Valid()
      modifies queue`popIndex, streaming
      ensures Valid()
      ensures (found, Window(), queue.Contents()) == Poll(old(Window()), old(queue.Contents()))
    {
      hide Accepts, Shift, Poll, Checksum;
      ghost var w0, q0 := Window(), queue.Contents();
      PollEmpty(w0);
      var ok, nch := queue.Pop();
      while ok
        invariant Valid()
        invariant if ok then Poll(w0, q0) == Poll(Window(), [nch] + queue.Contents())
                  else queue.Contents() == [] && Poll(w0, q0) == (false, Window(), [])
        decreases ok, |queue.Contents()|
      {
        PollStep(Window(), queue.Contents(), nch);
        ShiftIn(nch);
        var id, d0, d1, d2, d3 := Word(1), Word(2), Word(3), Word(4), Word(5);
        var header, sum := Word(0), Word(6);
        AcceptsMeans(Window());
        if header == HEADER && Checksum(id, d0, d1, d2, d3) == sum {
          return true;
        }
        PollEmpty(Window());
        ok, nch := queue.Pop();
      }
      return false;
    }

    /** A 16-bit field of the packet structure laid over the window. */
    function Word(i: nat): word
      requires Valid() && i < 7
      reads this, queue, streaming
    {
      (streaming[2 * i] as int) + 256 * (streaming[2 * i + 1] as int)
    }

    lemma AcceptsMeans(w: window)
      requires Valid() && w == Window()
      ensures Accepts(w) <==> Word(0) == HEADER && Checksum(Word(1), Word(2), Word(3), Word(4), Word(5)) == Word(6)
    {
    }
  }

  lemma PollEmpty(w: window)
    ensures Poll(w, []) == (false, w, [])
  {
  }

  lemma PollStep(w: window, q: seq<byte>, nch: byte)
    ensures Poll(w, [nch] + q) == var w1 := Shift(w, nch); if Accepts(w1) then (true, w1, q) else Poll(w1, q)
  {
    assert ([nch] + q)[1..] == q;
  }

  /** The transmitter: the data register of the hardware, the bytes that have left it, and the
      queue that the interrupt feeds it from. `enabled` is the interrupt enable bit. */
  class Transmitter {
    const queue: RingQueue
    var line: seq<byte>
    var register: Option<byte>
    var enabled: bool

    /** Queued bytes always have the interrupt that fetches them enabled. */
    ghost predicate Valid()
      reads this, queue, queue.buffer
    {
      queue.Valid() && (queue.Contents() != [] ==> enabled)
    }

    function Held(): seq<byte>
      reads this
    {
      if register.Some? then [register.value] else []
    }

    /** Everything put on the line or still to be put there, in order. */
    ghost function Stream(): seq<byte>
      requires queue.Valid()
      reads this, queue, queue.buffer
    {
      line + Held() + queue.Contents()
    }

    constructor ()
      ensures Valid() && Stream() == [] && fresh(queue) && fresh(queue.buffer)
    {
      queue := new RingQueue();
      line, register, enabled := [], None, false;
    }

    /** The hardware sends the byte of the data register. */
    method SendOut()
      requires Valid()
      modifies this`line, this`register
      ensures Valid() && register == None && line == old(line + Held()) && Stream() == old(Stream())
    {
      if register.Some? { line, register := line + [register.value], None; }
    }

    /** The transmit part of ISR_USART1 */
    method Interrupt()
      requires Valid()
      modifies this`register, this`enabled, queue`popIndex
      ensures Valid() && Stream() == old(Stream())
      ensures old(register).Some? ==> register == old(register) && queue.Contents() == old(queue.Contents())
      ensures old(register).None? ==> register.Some? == (old(queue.Contents()) != [])
    {
      hide RingQueue.Contents;
      if register.None? && enabled {
        var ok, data := queue.Pop();
        if ok { register := Some(data); } else { enabled := false; }
      }
    }

    /** The loop of USART1_Write: bytes from position `first` on, until the queue is full. */
    method Enqueue(bytes: seq<byte>, first: nat) returns (n: nat)
      requires queue.Valid() && first <= |bytes|
      modifies queue`pushIndex, queue.buffer
      ensures queue.Valid() && first <= n <= |bytes|
      ensures queue.Contents() == old(queue.Contents()) + bytes[first..n]
      ensures n < |bytes| ==> |queue.Contents()| == QUEUE_SIZE - 1
    {
      n := first;
      ghost var q0 := queue.Contents();
      assert bytes[first..first] == [];
      while n < |bytes|
        invariant queue.Valid() && first <= n <= |bytes|
        invariant queue.Contents() == q0 + bytes[first..n]
      {
        var ok := queue.Push(bytes[n]);
        if !ok { break; }
        assert bytes[first..n + 1] == bytes[first..n] + [bytes[n]];
        n := n + 1;
      }
    }

    /** A write that finds the queue empty puts its first byte into the data register. */
    predicate RoomToWrite()
      requires queue.Valid()
      reads this, queue, queue.buffer
    {
      !queue.Empty() || register.None?
    }

    /** USART1_Write: with an empty queue the first byte goes straight into the data register,
        which is not asked whether it is free; the rest is queued until the queue is full.
        The byte still in the register is lost exactly if the queue was empty. */
    method Write(bytes: seq<byte>) returns (n: nat)
      requires Valid()
      modifies this`register, this`enabled, queue`pushIndex, queue.buffer
      ensures Valid() && line == old(line) && n <= |bytes|
      ensures register == (if old(queue.Contents()) == [] && bytes != [] then Some(bytes[0]) else old(register))
      ensures Stream() == old(if RoomToWrite() || bytes == [] then Stream() else line) + bytes[..n]
      ensures Stream() == old(Stream()) + bytes[..n] <==> old(RoomToWrite()) || bytes == []
      ensures n < |bytes| ==> |queue.Contents()| == QUEUE_SIZE - 1
      ensures |old(queue.Contents())| + |bytes| < QUEUE_SIZE ==> n == |bytes|
    {
      hide RingQueue.Contents, RingQueue.Empty;
      if |bytes| == 0 { return 0; }
      ghost var line0, held0, q0 := line, Held(), queue.Contents();
      if queue.Empty() {
        enabled, register := true, Some(bytes[0]);
        n := Enqueue(bytes, 1);
        assert bytes[..n] == [bytes[0]] + bytes[1..n];
      } else {
        n := Enqueue(bytes, 0);
        assert bytes[0..n] == bytes[..n];
      }
    }
  }
}
