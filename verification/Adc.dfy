/** The analog board's converter (hardware/ver.2/cecs/m4_cecs_analog.c): sixteen signals
    share eight converter inputs through a multiplexer; every fourth interrupt stores the
    middle two readings of a block and moves on to the next signal. The port register is a
    16-bit number whose top four bits drive the multiplexer. */
module Adc {
  import opened Basics

  const CHANNELS := 16
  const BUFFER := 4
  const SELECT_1ST := 0x5000
  const SELECT_2ND := 0xa000

  type Half = x: int | 0 <= x < 0x1_0000

  /** nADCChannel: the converter input of each signal. */
  function Input(channel: nat): nat
    requires channel < CHANNELS
  {
    [4, 5, 6, 7, 4, 5, 6, 7, 8, 9, 14, 15, 8, 9, 14, 15][channel]
  }

  /** What the handler puts into the masked bits. */
  function Select(channel: nat): (r: Half)
    ensures r % 0x1000 == 0
  {
    if channel < 4 then SELECT_1ST
    else if 4 <= channel < 8 then SELECT_2ND
    else if 8 <= channel < 12 then SELECT_1ST
    else SELECT_2ND
  }

  /** Clears the top four bits and sets those of the selection. */
  function Masked(odr: Half, select: Half): Half
    requires select % 0x1000 == 0
  {
    odr % 0x1000 + select
  }

  /** The signals in groups of four: every other group is reached through the second setting of
      the multiplexer, and the lower eight share four inputs, as the upper eight do. */
  lemma SignalOf(c: nat)
    requires c < CHANNELS
    ensures Select(c) == if c % 8 < 4 then 0x5000 else 0xa000
    ensures Input(c) == if c < 8 then 4 + c % 4 else if c % 4 < 2 then 8 + c % 4 else 12 + c % 4
  {
  }

  /** The selection changes its own four bits of the port and no other. */
  lemma MaskedBits(odr: Half, select: Half)
    requires select % 0x1000 == 0
    ensures Masked(odr, select) % 0x1000 == odr % 0x1000 && Masked(odr, select) / 0x1000 == select / 0x1000
  {
  }

  /** Each signal is reached by its own pair of multiplexer setting and converter input. */
  lemma SelectionsDiffer(c: nat, d: nat)
    requires c < d < CHANNELS
    ensures (Select(c), Input(c)) != (Select(d), Input(d))
  {
    if Select(c) == Select(d) {
      if d < 8 { assert c >= 4 || d < 4; }
    }
  }

  /** What the handler stores for the second and third reading of a block: 32-bit arithmetic,
      then 16 bits kept. */
  function Millivolts(second: Half, third: Half): Half
  {
    (second + third) / 2 * 5000 % 0x1_0000_0000 / 4095 % 0x1_0000
  }

  /** The product never reaches 32 bits. A 12-bit mean is stored as its exact share of 5000,
      rounded down; a stored value is cut off exactly when the mean is above 53673. */
  lemma MillivoltsExact(second: Half, third: Half)
    ensures var mean, v := (second + third) / 2, Millivolts(second, third);
      && (mean <= 53673 <==> v * 4095 <= mean * 5000 < (v + 1) * 4095)
      && (second < 4096 && third < 4096 ==> v <= 5000 && (v == 5000 <==> mean == 4095))
  {
    var mean := (second + third) / 2;
    WithinWord(second, third);
    ShareOf(mean);
    CutTo16(Share(mean));
    hide Millivolts, Share;
  }

  /** The share of 5000 that a mean is of full scale, rounded down */
  function Share(mean: nat): nat { mean * 5000 / 4095 }

  lemma WithinWord(second: Half, third: Half)
    ensures Millivolts(second, third) == Share((second + third) / 2) % 0x1_0000
  {
    assert (second + third) / 2 * 5000 < 0x1_0000_0000;
  }

  lemma ShareOf(mean: nat)
    ensures var q := Share(mean);
      && q * 4095 <= mean * 5000 < (q + 1) * 4095 && (mean <= 53673 <==> q < 0x1_0000)
      && (mean <= 4095 ==> q <= 5000 && (q == 5000 <==> mean == 4095))
  {
  }

  lemma CutTo16(q: nat)
    ensures q < 0x1_0000 ==> q % 0x1_0000 == q
    ensures q >= 0x1_0000 ==> q % 0x1_0000 < q
  {
  }

  /** The module's variables and the two settings of the hardware. */
  datatype State = State(stored: seq<Half>, buffer: seq<Half>, channel: nat, count: nat, odr: Half, input: nat)

  ghost predicate WellFormed(s: State)
  {
    |s.stored| == CHANNELS && |s.buffer| == BUFFER && s.channel < CHANNELS && s.count < BUFFER
  }

  /** TIM7_StartAtoDConverter */
  function Started(odr: Half): (s: State)
    ensures WellFormed(s)
  {
    State(Repeat(0, CHANNELS), Repeat(0, BUFFER), 0, 0, Masked(odr, SELECT_1ST), Input(0))
  }

  /** ISR_AtoDConverter with the given reading in the data register */
  function Interrupted(s: State, reading: Half): (r: State)
    requires WellFormed(s)
    ensures WellFormed(r)
  {
    var buffer := s.buffer[1..] + [reading];
    var count := (s.count + 1) % BUFFER;
    var stored := if count == 0 then s.stored[s.channel := Millivolts(buffer[1], buffer[2])] else s.stored;
    var channel := if count == 0 then (s.channel + 1) % CHANNELS else s.channel;
    State(stored, buffer, channel, count, Masked(s.odr, Select(channel)), Input(channel))
  }

  /** The state after the converter was started and has delivered the readings. */
  function After(odr: Half, readings: seq<Half>): (s: State)
    ensures WellFormed(s)
  {
    if readings == [] then Started(odr)
    else Interrupted(After(odr, readings[..|readings| - 1]), readings[|readings| - 1])
  }

  lemma AfterUnfolds(odr: Half, readings: seq<Half>)
    requires readings != []
    ensures After(odr, readings) == Interrupted(After(odr, readings[..|readings| - 1]), readings[|readings| - 1])
  {}

  lemma AfterNone(odr: Half)
    ensures After(odr, []) == Started(odr)
  {}

  /** The counters number the readings, and the hardware is set for the channel they name. */
  ghost predicate InStep(s: State, odr: Half, n: nat)
  {
    && WellFormed(s) && s.count == n % BUFFER && s.channel == n / BUFFER % CHANNELS
    && s.odr == Masked(odr, Select(s.channel)) && s.input == Input(s.channel)
  }

  lemma InStepNext(s: State, odr: Half, n: nat, reading: Half)
    requires InStep(s, odr, n)
    ensures InStep(Interrupted(s, reading), odr, n + 1)
  {
    NextOfBlock(n);
    hide Input, Millivolts;
    var t := Interrupted(s, reading);
    assert t.odr == Masked(odr, Select(t.channel));
  }

  /** The multiplexer and the converter input always belong to the signal that is counted, and
      the other bits of the port keep their values. */
  lemma {:induction false} CountersMatch(odr: Half, readings: seq<Half>)
    ensures InStep(After(odr, readings), odr, |readings|)
  {
    if readings == [] {
      AfterNone(odr);
    } else {
      var n := |readings| - 1;
      CountersMatch(odr, readings[..n]);
      InStepNext(After(odr, readings[..n]), odr, n, readings[n]);
      AfterUnfolds(odr, readings);
      hide After, Interrupted, InStep;
    }
  }

  lemma NextOfBlock(n: nat)
    ensures (n % BUFFER + 1) % BUFFER == (n + 1) % BUFFER
    ensures (n + 1) % BUFFER == 0 <==> (n + 1) / BUFFER == n / BUFFER + 1
    ensures (n + 1) % BUFFER != 0 <==> (n + 1) / BUFFER == n / BUFFER
    ensures (n / BUFFER % CHANNELS + 1) % CHANNELS == (n / BUFFER + 1) % CHANNELS
  {}

  /** The buffer holds the latest readings. */
  lemma {:induction false} BufferHolds(odr: Half, readings: seq<Half>)
    ensures var n := |readings|; forall i :: 0 <= i < BUFFER && i + n >= BUFFER ==>
      After(odr, readings).buffer[i] == readings[n - BUFFER + i]
  {
    hide After;
    if readings != [] {
      BufferHolds(odr, readings[..|readings| - 1]);
      AfterUnfolds(odr, readings);
    }
  }

  /** Block b is the last complete block of readings taken for channel c. */
  ghost predicate LastBlock(readings: seq<Half>, c: nat, b: nat)
  {
    b % CHANNELS == c && b * BUFFER + BUFFER <= |readings| < (b + CHANNELS) * BUFFER + BUFFER
  }

  /** No block of readings is complete yet for channel c. */
  ghost predicate NoBlock(readings: seq<Half>, c: nat) { |readings| < c * BUFFER + BUFFER }

  function BlockValue(readings: seq<Half>, b: nat): Half
    requires b * BUFFER + BUFFER <= |readings|
  {
    Millivolts(readings[b * BUFFER + 1], readings[b * BUFFER + 2])
  }

  lemma InterruptStores(s: State, reading: Half, c: nat)
    requires WellFormed(s) && c < CHANNELS
    ensures Interrupted(s, reading).stored[c]
            == if (s.count + 1) % BUFFER == 0 && s.channel == c then Millivolts(s.buffer[2], s.buffer[3]) else s.stored[c]
  {}

  lemma EndOfBlock(n: nat, b: nat)
    requires b * BUFFER + BUFFER == n + 1
    ensures (n + 1) % BUFFER == 0 && n / BUFFER == b && n >= 3
  {}

  /** Reading n changes a channel only if it ends a block of that channel. */
  lemma StoredAt(odr: Half, readings: seq<Half>, c: nat)
    requires c < CHANNELS && readings != []
    ensures var n := |readings| - 1;
      if (n + 1) % BUFFER == 0 && n / BUFFER % CHANNELS == c
      then n >= 3 && After(odr, readings).stored[c] == Millivolts(readings[n - 2], readings[n - 1])
      else After(odr, readings).stored[c] == After(odr, readings[..n]).stored[c]
  {
    var n := |readings| - 1;
    var init := readings[..n];
    CountersMatch(odr, init);
    NextOfBlock(n);
    BufferHolds(odr, init);
    AfterUnfolds(odr, readings);
    InterruptStores(After(odr, init), readings[n], c);
    hide After, Interrupted, Millivolts, Input, Select;
    var s := After(odr, init);
    if n >= 3 { assert s.buffer[2] == init[n - 2] && s.buffer[3] == init[n - 1]; }
  }

  /** After every interrupt each channel holds the value of its own last complete block, and 0
      before there is one. */
  lemma {:induction false} Attribution(odr: Half, readings: seq<Half>, c: nat)
    requires c < CHANNELS
    ensures NoBlock(readings, c) ==> After(odr, readings).stored[c] == 0
    ensures forall b: nat :: LastBlock(readings, c, b) ==> After(odr, readings).stored[c] == BlockValue(readings, b)
  {
    hide After, Millivolts;
    if readings == [] {
      AfterNone(odr);
    } else {
      var n := |readings| - 1;
      Attribution(odr, readings[..n], c);
      StoredAt(odr, readings, c);
      if NoBlock(readings, c) { FirstBlock(n, c); }
      forall b: nat | LastBlock(readings, c, b) ensures After(odr, readings).stored[c] == BlockValue(readings, b) {
        if b * BUFFER + BUFFER == n + 1 {
          EndOfBlock(n, b);
        } else {
          assert LastBlock(readings[..n], c, b);
          if (n + 1) % BUFFER == 0 { OtherBlock(n, c, b); }
        }
      }
    }
  }

  /** The block that ends with reading n belongs to another channel. */
  lemma OtherBlock(n: nat, c: nat, b: nat)
    requires b % CHANNELS == c && b * BUFFER + BUFFER <= n && n + 1 < (b + CHANNELS) * BUFFER + BUFFER
    requires (n + 1) % BUFFER == 0
    ensures n / BUFFER % CHANNELS != c
  {
    var k := n / BUFFER - b;
    assert 0 < k < CHANNELS;
  }

  lemma FirstBlock(n: nat, c: nat)
    requires n + 1 < c * BUFFER + BUFFER && c < CHANNELS
    ensures (n + 1) % BUFFER == 0 ==> n / BUFFER % CHANNELS != c
  {}

  /** One of the two cases always applies, and only one block is the last. */
  lemma LastBlockUnique(readings: seq<Half>, c: nat)
    requires c < CHANNELS
    ensures NoBlock(readings, c) <==> forall b: nat :: !LastBlock(readings, c, b)
    ensures forall a: nat, b: nat :: LastBlock(readings, c, a) && LastBlock(readings, c, b) ==> a == b
  {
    if !NoBlock(readings, c) {
      var b := LatestBlock(readings, c);
      assert LastBlock(readings, c, b);
    }
    forall a: nat, b: nat | LastBlock(readings, c, a) && LastBlock(readings, c, b) ensures a == b {
      Apart(a / CHANNELS, b / CHANNELS, |readings|, c);
    }
  }

  lemma LatestBlock(readings: seq<Half>, c: nat) returns (b: nat)
    requires c < CHANNELS && !NoBlock(readings, c)
    ensures LastBlock(readings, c, b)
  {
    b := c;
    while (b + CHANNELS) * BUFFER + BUFFER <= |readings|
      invariant b % CHANNELS == c && b * BUFFER + BUFFER <= |readings|
      decreases |readings| - b
    {
      b := b + CHANNELS;
    }
  }

  lemma Apart(p: nat, q: nat, n: nat, c: nat)
    requires var a, b := p * CHANNELS + c, q * CHANNELS + c;
      a * BUFFER + BUFFER <= n < (a + CHANNELS) * BUFFER + BUFFER && b * BUFFER + BUFFER <= n < (b + CHANNELS) * BUFFER + BUFFER
    ensures p == q
  {}

  /** A reading of a block was converted while the signal of that block was selected. */
  lemma TakenWhileSelected(odr: Half, readings: seq<Half>, b: nat, k: nat)
    requires k < BUFFER && b * BUFFER + k < |readings|
    ensures var before := After(odr, readings[..b * BUFFER + k]);
      before.channel == b % CHANNELS && before.odr == Masked(odr, Select(b % CHANNELS)) && before.input == Input(b % CHANNELS)
  {
    hide After, Select, Input;
    CountersMatch(odr, readings[..b * BUFFER + k]);
  }

  /** With 12-bit readings no channel ever holds more than 5000. */
  lemma StoredInRange(odr: Half, readings: seq<Half>, c: nat)
    requires c < CHANNELS && forall i :: 0 <= i < |readings| ==> readings[i] < 4096
    ensures After(odr, readings).stored[c] <= 5000
  {
    Attribution(odr, readings, c);
    LastBlockUnique(readings, c);
    hide After, Millivolts, LastBlock;
    if !NoBlock(readings, c) {
      var b: nat :| LastBlock(readings, c, b);
      BlockInRange(readings, c, b);
    }
  }

  lemma BlockInRange(readings: seq<Half>, c: nat, b: nat)
    requires LastBlock(readings, c, b) && forall i :: 0 <= i < |readings| ==> readings[i] < 4096
    ensures b * BUFFER + BUFFER <= |readings| && BlockValue(readings, b) <= 5000
  {
    MillivoltsExact(readings[b * BUFFER + 1], readings[b * BUFFER + 2]);
  }

  /** The module's variables, the port register and the converter's input setting */
  class Converter {
    const stored: array<Half>
    const buffer: array<Half>
    var channel: nat
    var count: nat
    var odr: Half
    var input: nat

    ghost predicate Valid()
      reads this, stored, buffer
    {
      stored != buffer && WellFormed(Value())
    }

    ghost function Value(): State
      reads this, stored, buffer
    {
      State(stored[..], buffer[..], channel, count, odr, input)
    }

    /** Static storage: whatever the hardware holds, the variables are 0. */
    constructor (odr: Half)
      ensures Valid() && Value() == State(Repeat(0, CHANNELS), Repeat(0, BUFFER), 0, 0, odr, 0)
      ensures fresh(stored) && fresh(buffer)
    {
      stored := new Half[CHANNELS](_ => 0);
      buffer := new Half[BUFFER](_ => 0);
      channel, count, this.odr, input := 0, 0, odr, 0;
    }

    /** TIM7_StartAtoDConverter */
    method Start()
      requires Valid()
      modifies this, stored, buffer
      ensures Valid() && Value() == Started(old(odr))
    {
      channel, count := 0, 0;
      forall i | 0 <= i < stored.Length { stored[i] := 0; }
      forall i | 0 <= i < buffer.Length { buffer[i] := 0; }
      odr := Masked(odr, SELECT_1ST);
      input := Input(channel);
      assert stored[..] == Repeat(0, CHANNELS) && buffer[..] == Repeat(0, BUFFER);
    }

    /** The shifting loop of the handler */
    method ShiftIn(reading: Half)
      requires buffer.Length == BUFFER
      modifies buffer
      ensures buffer[..] == old(buffer[..])[1..] + [reading]
    {
      var i := 0;
      while i < BUFFER - 1
        invariant 0 <= i <= BUFFER - 1
        invariant forall k :: 0 <= k < BUFFER ==> buffer[k] == old(buffer[if k < i then k + 1 else k])
      {
        buffer[i] := buffer[i + 1];
        i := i + 1;
      }
      buffer[BUFFER - 1] := reading;
    }

    /** ISR_AtoDConverter */
    method Interrupt(reading: Half)
      requires Valid()
      modifies this, stored, buffer
      ensures Valid() && Value() == Interrupted(old(Value()), reading)
    {
      hide Select, Input;
      ShiftIn(reading);
      count := (count + 1) % BUFFER;
      if count == 0 {
        var first: int, second: int := buffer[1], buffer[2];
        var mean: int := (first + second) / 2;
        stored[channel] := mean * 5000 % 0x1_0000_0000 / 4095 % 0x1_0000;
        channel := (channel + 1) % CHANNELS;
      }
      odr := Masked(odr, Select(channel));
      input := Input(channel);
    }
  }
}
