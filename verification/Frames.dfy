/** Frames in a TCP stream (software/gos/src/gos_server.c, gos_connection.c): what the
    append-and-parse loop delivers does not depend on how the stream is cut into reads.
    The frame decoder of libtp3 is a parameter. */
module Frames {
  import opened Basics

  /** tp3_readframe: the bytes consumed (a positive number) and the frame, if there is one. */
  datatype Parsed<+F> = Parsed(used: nat, frame: F)
  type Decoder<!F> = seq<int> -> Option<Parsed<F>>

  /** gos_process_message: whether processing succeeds may depend on how many frames of the
      connection came before. */
  type Processing<!F> = (nat, F) -> bool

  /** A decoder takes at least one byte and no more than there are, and more bytes behind a
      complete frame do not change it. */
  ghost predicate Sound<F(!new)>(dec: Decoder<F>)
  {
    && (forall s :: dec(s).Some? ==> 1 <= dec(s).value.used <= |s|)
    && (forall s, t {:trigger dec(s + t)} :: dec(s).Some? ==> dec(s + t) == dec(s))
  }

  /** The frames at the front of a byte string, one after the other. */
  ghost function Greedy<F(!new)>(dec: Decoder<F>, s: seq<int>): seq<F>
    requires Sound(dec)
    decreases |s|
  {
    if dec(s).None? then [] else [dec(s).value.frame] + Greedy(dec, s[dec(s).value.used..])
  }

  /** What is left behind them. */
  ghost function Rest<F(!new)>(dec: Decoder<F>, s: seq<int>): seq<int>
    requires Sound(dec)
    decreases |s|
  {
    if dec(s).None? then s else Rest(dec, s[dec(s).value.used..])
  }

  /** One run of the parse loop: it stops when no frame is complete or after the first
      frame whose processing fails. */
  ghost function Drain<F(!new)>(dec: Decoder<F>, process: Processing<F>, at: nat, s: seq<int>): (seq<F>, seq<int>)
    requires Sound(dec)
    decreases |s|, 0
  {
    if dec(s).None? then ([], s)
    else
      var p := dec(s).value;
      if !process(at, p.frame) then ([p.frame], s[p.used..])
      else
        var (fs, rest) := Drain(dec, process, at + 1, s[p.used..]);
        ([p.frame] + fs, rest)
  }

  /** The run once a frame has been taken off the front. */
  ghost function Resume<F(!new)>(dec: Decoder<F>, process: Processing<F>, at: nat, f: F, s: seq<int>): (seq<F>, seq<int>)
    requires Sound(dec)
  {
    if !process(at, f) then ([f], s)
    else
      var (fs, rest) := Drain(dec, process, at + 1, s);
      ([f] + fs, rest)
  }

  /** gos_after_read for one piece of input: the frames delivered and the bytes kept. An
      empty read does nothing. */
  ghost function ReadOnce<F(!new)>(dec: Decoder<F>, process: Processing<F>, at: nat, kept: seq<int>, piece: seq<int>)
      : (seq<F>, seq<int>)
    requires Sound(dec)
  {
    if piece == [] then ([], kept) else Drain(dec, process, at, kept + piece)
  }

  ghost function ReadAll<F(!new)>(dec: Decoder<F>, process: Processing<F>, pieces: seq<seq<int>>): (seq<F>, seq<int>)
    requires Sound(dec)
  {
    if pieces == [] then ([], [])
    else
      var n := |pieces| - 1;
      var (fs, kept) := ReadAll(dec, process, pieces[..n]);
      var (gs, rest) := ReadOnce(dec, process, |fs|, kept, pieces[n]);
      (fs + gs, rest)
  }

  function Joined(pieces: seq<seq<int>>): seq<int>
  {
    if pieces == [] then [] else Joined(pieces[..|pieces| - 1]) + pieces[|pieces| - 1]
  }

  // -------------------------------------------------------------------- the laws

  /** Decoding a longer string goes on where decoding its beginning stopped. */
  lemma {:induction false} GreedyAppend<F(!new)>(dec: Decoder<F>, s: seq<int>, t: seq<int>)
    requires Sound(dec)
    ensures Greedy(dec, s + t) == Greedy(dec, s) + Greedy(dec, Rest(dec, s) + t)
    ensures Rest(dec, s + t) == Rest(dec, Rest(dec, s) + t)
    decreases |s|
  {
    hide Sound;
    SoundAt(dec, s, t);
    if dec(s).Some? {
      var u := dec(s).value.used;
      assert (s + t)[u..] == s[u..] + t;
      GreedyAppend(dec, s[u..], t);
    }
  }

  lemma SoundAt<F(!new)>(dec: Decoder<F>, s: seq<int>, t: seq<int>)
    requires Sound(dec)
    ensures dec(s).Some? ==> 1 <= dec(s).value.used <= |s| && dec(s + t) == dec(s)
  {
  }

  /** A run of the loop delivers frames of the greedy decoding and loses none. */
  lemma {:induction false} DrainIsGreedy<F(!new)>(dec: Decoder<F>, process: Processing<F>, at: nat, s: seq<int>)
    requires Sound(dec)
    ensures var (fs, rest) := Drain(dec, process, at, s);
      && Greedy(dec, s) == fs + Greedy(dec, rest)
      && Rest(dec, s) == Rest(dec, rest)
      && |rest| + |fs| <= |s|
    decreases |s|
  {
    SoundAt(dec, s, []);
    hide Sound;
    if dec(s).Some? {
      var p := dec(s).value;
      var t := s[p.used..];
      if process(at, p.frame) {
        DrainIsGreedy(dec, process, at + 1, t);
        var (gs, rest) := Drain(dec, process, at + 1, t);
        assert [p.frame] + gs + Greedy(dec, rest) == [p.frame] + (gs + Greedy(dec, rest));
      }
    }
  }

  /** The first n frames were processed. */
  ghost predicate Processed<F(!new)>(process: Processing<F>, at: nat, fs: seq<F>, n: int)
    requires n <= |fs|
  {
    forall k :: 0 <= k < n ==> process(at + k, fs[k])
  }

  lemma ProcessedNext<F(!new)>(process: Processing<F>, at: nat, f: F, fs: seq<F>, n: int)
    requires 0 <= n <= |fs| && process(at, f)
    ensures Processed(process, at, [f] + fs, n + 1) <==> Processed(process, at + 1, fs, n)
  {
    var all := [f] + fs;
    if Processed(process, at + 1, fs, n) {
      forall k | 0 <= k < n + 1 ensures process(at + k, all[k]) {
        if k > 0 { assert process(at + 1 + (k - 1), fs[k - 1]); }
      }
    }
    if Processed(process, at, all, n + 1) {
      forall k | 0 <= k < n ensures process(at + 1 + k, fs[k]) {
        var m := k + 1;
        assert process(at + m, all[m]);
      }
    }
  }

  /** A run goes on until the processing of a frame fails or no complete frame is left. */
  lemma {:induction false} DrainStops<F(!new)>(dec: Decoder<F>, process: Processing<F>, at: nat, s: seq<int>)
    requires Sound(dec)
    ensures var (fs, rest) := Drain(dec, process, at, s);
      && Processed(process, at, fs, |fs| - 1)
      && (Processed(process, at, fs, |fs|) ==> dec(rest).None?)
    decreases |s|
  {
    SoundAt(dec, s, []);
    hide Sound;
    if dec(s).Some? {
      var p := dec(s).value;
      var t := s[p.used..];
      if process(at, p.frame) {
        DrainStops(dec, process, at + 1, t);
        var gs := Drain(dec, process, at + 1, t).0;
        ProcessedNext(process, at, p.frame, gs, |gs|);
        if gs != [] { ProcessedNext(process, at, p.frame, gs, |gs| - 1); }
        hide Processed;
      } else {
        assert !process(at + 0, [p.frame][0]);
      }
    }
  }

  /** For every way of cutting a stream into reads, and even if processing fails now and
      then: the frames delivered, followed by those still complete in the buffer, are the
      frames of the whole stream in order. */
  lemma {:induction false} NoFrameLost<F(!new)>(dec: Decoder<F>, process: Processing<F>, pieces: seq<seq<int>>)
    requires Sound(dec)
    ensures var (fs, kept) := ReadAll(dec, process, pieces);
      && fs + Greedy(dec, kept) == Greedy(dec, Joined(pieces))
      && Rest(dec, kept) == Rest(dec, Joined(pieces))
  {
    hide Greedy, Rest, Drain, Sound;
    if pieces == [] {
      NothingDecoded(dec);
    } else {
      var n := |pieces| - 1;
      NoFrameLost(dec, process, pieces[..n]);
      var (fs, kept) := ReadAll(dec, process, pieces[..n]);
      var j, t := Joined(pieces[..n]), pieces[n];
      if t == [] {
        assert j + t == j && fs + [] == fs;
      } else {
        DrainIsGreedy(dec, process, |fs|, kept + t);
        GreedyAppend(dec, j, t);
        GreedyAppend(dec, kept, t);
        var (gs, rest) := Drain(dec, process, |fs|, kept + t);
        assert fs + gs + Greedy(dec, rest) == fs + (gs + Greedy(dec, rest));
      }
    }
  }

  lemma NothingDecoded<F(!new)>(dec: Decoder<F>)
    requires Sound(dec)
    ensures [] + Greedy(dec, []) == Greedy(dec, [])
  {
  }

  /** If every frame is processed, the frames delivered are exactly those of the whole
      stream, and no complete frame is kept: cutting the stream differently changes nothing. */
  lemma CuttingDoesNotMatter<F(!new)>(dec: Decoder<F>, process: Processing<F>, pieces: seq<seq<int>>)
    requires Sound(dec) && dec([]).None?
    requires forall k, f :: process(k, f)
    ensures ReadAll(dec, process, pieces) == (Greedy(dec, Joined(pieces)), Rest(dec, Joined(pieces)))
  {
    NoFrameLost(dec, process, pieces);
    AllProcessed(dec, process, pieces);
    var (fs, kept) := ReadAll(dec, process, pieces);
    assert fs + [] == fs;
  }

  lemma {:induction false} AllProcessed<F(!new)>(dec: Decoder<F>, process: Processing<F>, pieces: seq<seq<int>>)
    requires Sound(dec) && dec([]).None?
    requires forall k, f :: process(k, f)
    ensures dec(ReadAll(dec, process, pieces).1).None?
  {
    if pieces != [] {
      var n := |pieces| - 1;
      AllProcessed(dec, process, pieces[..n]);
      var (fs, kept) := ReadAll(dec, process, pieces[..n]);
      DrainStops(dec, process, |fs|, kept + pieces[n]);
    }
  }
}
