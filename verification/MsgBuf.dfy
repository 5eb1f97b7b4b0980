/** cf_msgbuf (software/libcflora/src/cf_msgbuf.c) and the read loop built on it, in place. */
module MsgBuf {
  import opened Basics
  import opened Frames

  const STEP := 100   // _CF_MSGBUF_STEP

  lemma Cut(s: seq<int>, i: nat, j: nat, k: nat)
    requires i <= j <= k <= |s|
    ensures s[i..k] == s[i..j] + s[j..k]
  {
  }

  class Buffer {
    var buf: array<int>
    var bufsize: nat
    var len: nat
    var idx: nat

    ghost predicate Valid()
      reads this
    {
      buf.Length == bufsize && idx + len <= bufsize
    }

    /** The byte queue the buffer stands for. */
    ghost function Contents(): (s: seq<int>)
      requires Valid()
      reads this, buf
      ensures |s| == len
    {
      buf[idx..idx + len]
    }

    /** cf_init_msgbuf */
    constructor ()
      ensures Valid() && Contents() == [] && bufsize == STEP && fresh(buf)
    {
      buf := new int[STEP](_ => 0);
      bufsize, len, idx := STEP, 0, 0;
    }

    /** CF_REALLOC: a larger block that begins with the old one. */
    method Grow(size: nat)
      requires Valid() && bufsize <= size
      modifies this`buf, this`bufsize
      ensures Valid() && bufsize == size && fresh(buf)
      ensures len == old(len) && idx == old(idx) && Contents() == old(Contents())
    {
      var tmp := new int[size](_ => 0);
      for k := 0 to bufsize
        invariant buf == old(buf) && bufsize == old(bufsize)
        invariant forall j :: 0 <= j < k ==> tmp[j] == buf[j]
      {
        tmp[k] := buf[k];
      }
      assert tmp[idx..idx + len] == buf[idx..idx + len];
      buf, bufsize := tmp, size;
    }

    /** memcpy (buf, buf + idx, len): the areas may overlap, so it is a move. */
    method Slide()
      requires Valid()
      modifies this`idx, buf
      ensures Valid() && idx == 0 && Contents() == old(Contents()) && len == old(len)
    {
      ghost var s := Contents();
      for k := 0 to len
        invariant Valid() && idx == old(idx)
        invariant forall j :: 0 <= j < k ==> buf[j] == s[j]
        invariant forall m :: idx + k <= m < idx + len ==> buf[m] == old(buf[m])
      {
        buf[k] := buf[idx + k];
      }
      idx := 0;
      assert buf[0..len] == s;
    }

    /** memcpy (buf + at, data, len) into free space */
    method CopyIn(at: nat, data: seq<int>)
      requires at + |data| <= buf.Length
      modifies buf
      ensures buf[at..at + |data|] == data
      ensures forall j :: 0 <= j < at ==> buf[j] == old(buf[j])
    {
      for k := 0 to |data|
        invariant forall j :: 0 <= j < k ==> buf[at + j] == data[j]
        invariant forall j :: 0 <= j < at ==> buf[j] == old(buf[j])
      {
        buf[at + k] := data[k];
      }
    }

    /** The first part of cf_append_msgbuf: make room behind the contents. */
    method MakeRoom(n: nat)
      requires Valid()
      modifies this`buf, this`bufsize, this`idx, buf
      ensures Valid() && (buf == old(buf) || fresh(buf)) && bufsize >= old(bufsize)
      ensures Contents() == old(Contents()) && idx + len + n <= bufsize && len == old(len)
      ensures bufsize == old(bufsize) + if old(bufsize - len) >= n then 0 else if n > STEP then n else STEP
    {
      if bufsize - idx - len < n {
        if bufsize - len < n {
          Grow(bufsize + (if n > STEP then n else STEP));
        }
        Slide();
      }
    }

    /** cf_append_msgbuf */
    method Append(data: seq<int>)
      requires Valid()
      modifies this, buf
      ensures Valid() && (buf == old(buf) || fresh(buf))
      ensures Contents() == old(Contents()) + data
      ensures bufsize == old(bufsize) + if old(bufsize - len) >= |data| then 0 else if |data| > STEP then |data| else STEP
    {
      MakeRoom(|data|);
      ghost var s := Contents();
      var at := idx + len;
      CopyIn(at, data);
      assert buf[idx..at] == s;
      len := len + |data|;
      Cut(buf[..], idx, at, at + |data|);
    }

    /** cf_setused_msgbuf */
    method SetUsed(used: nat)
      requires Valid() && used <= len
      modifies this`idx, this`len
      ensures Valid() && Contents() == old(Contents())[used..]
    {
      idx := idx + used;
      len := len - used;
    }

    /** cf_resize_msgbuf: only a buffer that is too small is replaced, and then emptied. */
    method Resize(size: nat)
      requires Valid()
      modifies this
      ensures Valid() && bufsize >= size && (buf == old(buf) || fresh(buf))
      ensures old(bufsize) >= size ==> Contents() == old(Contents()) && buf == old(buf)
      ensures old(bufsize) < size ==> Contents() == [] && idx == 0 && bufsize == size
    {
      if bufsize < size {
        buf := new int[size](_ => 0);
        bufsize, len, idx := size, 0, 0;
      }
    }

    /** cf_setlength_msgbuf, after the frame was written to the front of the block */
    method SetLength(length: nat)
      requires Valid() && length <= bufsize
      modifies this`idx, this`len
      ensures Valid() && Contents() == buf[..length]
    {
      idx, len := 0, length;
    }
  }

  /** gos_parseframe_msgbuf */
  method ParseFrame<F(!new)>(b: Buffer, dec: Decoder<F>) returns (r: Option<F>)
    requires b.Valid() && Sound(dec)
    modifies b`idx, b`len
    ensures b.Valid() && (r.Some? ==> b.len < old(b.len))
    ensures var s := old(b.Contents());
      match dec(s)
      case None => r == None && b.Contents() == s
      case Some(p) => r == Some(p.frame) && b.Contents() == s[p.used..]
  {
    var p := dec(b.buf[b.idx..b.idx + b.len]);
    if p.None? { return None; }
    b.SetUsed(p.value.used);
    return Some(p.value.frame);
  }

  /** gos_after_read: a failed read shuts the stream down; otherwise append what was read,
      then parse and process until no frame is complete or processing fails. `at` frames
      came before on this connection. */
  method AfterRead<F(!new)>(b: Buffer, dec: Decoder<F>, process: Processing<F>, at: nat, nread: int, data: seq<int>)
      returns (delivered: seq<F>, shutdown: bool)
    requires b.Valid() && Sound(dec) && (nread < 0 || nread == |data|)
    modifies b, b.buf
    ensures b.Valid() && shutdown == (nread < 0)
    ensures nread <= 0 ==> delivered == [] && b.Contents() == old(b.Contents())
    ensures !shutdown ==> (delivered, b.Contents()) == ReadOnce(dec, process, at, old(b.Contents()), data)
  {
    hide Drain, Resume, Sound, Buffer.Contents;
    delivered, shutdown := [], nread < 0;
    if shutdown || nread == 0 { return; }
    b.Append(data);
    ghost var s := b.Contents();
    var r := ParseFrame(b, dec);
    FirstFrame(dec, process, at, s);
    while r.Some?
      invariant b.Valid() && (b.buf == old(b.buf) || fresh(b.buf))
      invariant Drain(dec, process, at, s) == Pending(dec, process, at, delivered, r, b.Contents())
      decreases if r.Some? then b.len + 1 else 0
    {
      var before := delivered;
      ghost var f, c := r.value, b.Contents();
      delivered := delivered + [r.value];
      if !process(at + |before|, r.value) {
        LastFrame(dec, process, at, before, f, c);
        return;
      }
      r := ParseFrame(b, dec);
      NextFrame(dec, process, at, before, f, c);
    }
  }

  /** The outcome of a run that has delivered some frames and holds the next one, if any. */
  ghost function Pending<F(!new)>(dec: Decoder<F>, process: Processing<F>, at: nat, delivered: seq<F>, r: Option<F>, c: seq<int>)
      : (seq<F>, seq<int>)
    requires Sound(dec)
  {
    match r
    case None => (delivered, c)
    case Some(f) =>
      var (fs, rest) := Resume(dec, process, at + |delivered|, f, c);
      (delivered + fs, rest)
  }

  lemma FirstFrame<F(!new)>(dec: Decoder<F>, process: Processing<F>, at: nat, c: seq<int>)
    requires Sound(dec)
    ensures Drain(dec, process, at, c) ==
      match dec(c)
      case None => Pending(dec, process, at, [], None, c)
      case Some(p) => Pending(dec, process, at, [], Some(p.frame), c[p.used..])
  {
    if dec(c).Some? {
      var p := dec(c).value;
      var fs := Resume(dec, process, at, p.frame, c[p.used..]).0;
      assert [] + fs == fs;
    }
  }

  lemma LastFrame<F(!new)>(dec: Decoder<F>, process: Processing<F>, at: nat, before: seq<F>, f: F, c: seq<int>)
    requires Sound(dec) && !process(at + |before|, f)
    ensures Pending(dec, process, at, before, Some(f), c) == (before + [f], c)
  {
  }

  lemma NextFrame<F(!new)>(dec: Decoder<F>, process: Processing<F>, at: nat, before: seq<F>, f: F, c: seq<int>)
    requires Sound(dec) && process(at + |before|, f)
    ensures Pending(dec, process, at, before, Some(f), c) ==
      match dec(c)
      case None => Pending(dec, process, at, before + [f], None, c)
      case Some(p) => Pending(dec, process, at, before + [f], Some(p.frame), c[p.used..])
  {
    if dec(c).Some? {
      var p := dec(c).value;
      var fs := Resume(dec, process, at + |before| + 1, p.frame, c[p.used..]).0;
      assert before + ([f] + fs) == before + [f] + fs;
    } else {
      assert [f] + [] == [f];
    }
  }
}
