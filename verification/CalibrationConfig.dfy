/** Reading a calibration from its configuration text, "raw:val,raw:val,..."
    (software/gos/src/gos_device.c): the pass that counts commas to allocate segments, and
    the strtok pass that writes them. The number reader atof is a parameter. */
module CalibrationConfig {
  import opened Basics
  import opened Calibration

  // ---------------------------------------------------------------------- fields

  /** The next comma from i on, or the end. */
  function FieldEnd(s: string, i: nat): (e: nat)
    requires i <= |s|
    ensures i <= e <= |s|
    ensures i == e <==> i == |s| || s[i] == ','
    ensures e < |s| ==> s[e] == ','
    decreases |s| - i
  {
    if i == |s| || s[i] == ',' then i else FieldEnd(s, i + 1)
  }

  /** The text cut at its commas, empty fields included. */
  function Fields(s: string, i: nat): (fs: seq<string>)
    requires i <= |s|
    decreases |s| - i
  {
    var e := FieldEnd(s, i);
    if e == |s| then [s[i..]] else [s[i..e]] + Fields(s, e + 1)
  }

  function NonEmpty(fs: seq<string>): seq<string>
  {
    if fs == [] then [] else (if fs[0] == "" then [] else [fs[0]]) + NonEmpty(fs[1..])
  }

  /** The commas from i on. */
  function Commas(s: string, i: nat): nat
    requires i <= |s|
    decreases |s| - i
  {
    if i == |s| then 0 else (if s[i] == ',' then 1 else 0) + Commas(s, i + 1)
  }

  /** strtok_r from position i: skip commas, then take up to the next; empty at the end. */
  function Token(s: string, i: nat): (r: (nat, nat))
    requires i <= |s|
    ensures i <= r.0 <= r.1 <= |s|
    ensures r.0 == r.1 <==> r.0 == |s|
    decreases |s| - i
  {
    if i < |s| && s[i] == ',' then Token(s, i + 1) else (i, FieldEnd(s, i))
  }

  /** Where strtok_r goes on after a token: behind the comma that ended it. */
  function After(s: string, e: nat): (p: nat)
    requires e <= |s|
    ensures e <= p <= |s|
  {
    if e < |s| then e + 1 else e
  }

  /** All tokens from position i on. */
  function Tokens(s: string, i: nat): seq<string>
    requires i <= |s|
    decreases |s| - i
  {
    var (b, e) := Token(s, i);
    if b == e then [] else [s[b..e]] + Tokens(s, After(s, e))
  }

  // ------------------------------------------------------------ the two passes agree

  lemma {:induction false} CommasSkip(s: string, i: nat)
    requires i <= |s|
    ensures Commas(s, i) == Commas(s, FieldEnd(s, i))
    decreases |s| - i
  {
    if i < |s| && s[i] != ',' { CommasSkip(s, i + 1); }
  }

  /** There is one field more than there are commas. */
  lemma {:induction false} FieldsCount(s: string, i: nat)
    requires i <= |s|
    ensures |Fields(s, i)| == Commas(s, i) + 1
    decreases |s| - i
  {
    hide FieldEnd, Commas;
    var e := FieldEnd(s, i);
    CommasSkip(s, i);
    CommaAt(s, e);
    if e < |s| { FieldsCount(s, e + 1); }
  }

  lemma CommaAt(s: string, e: nat)
    requires e <= |s|
    ensures e == |s| ==> Commas(s, e) == 0
    ensures e < |s| && s[e] == ',' ==> Commas(s, e) == 1 + Commas(s, e + 1)
  {
  }

  /** The tokenizer takes a field that is not empty and steps over one that is. */
  lemma TokensFrom(s: string, i: nat)
    requires i <= |s|
    ensures var e := FieldEnd(s, i);
      Tokens(s, i) == (if i < e then [s[i..e]] else []) + if e < |s| then Tokens(s, e + 1) else []
  {
    assert Tokens(s, |s|) == [];
  }

  lemma FieldsFrom(s: string, i: nat)
    requires i <= |s|
    ensures var e := FieldEnd(s, i);
      Fields(s, i) == [s[i..e]] + if e < |s| then Fields(s, e + 1) else []
  {
    assert s[i..] == s[i..|s|];
  }

  lemma NonEmptyFrom(f: string, fs: seq<string>)
    ensures NonEmpty([f] + fs) == (if f == "" then [] else [f]) + NonEmpty(fs)
  {
    assert ([f] + fs)[1..] == fs;
  }

  /** The tokens are the fields that are not empty. */
  lemma {:induction false} TokensAreFields(s: string, i: nat)
    requires i <= |s|
    ensures Tokens(s, i) == NonEmpty(Fields(s, i))
    decreases |s| - i
  {
    hide FieldEnd, Tokens, Fields;
    var e := FieldEnd(s, i);
    TokensFrom(s, i);
    FieldsFrom(s, i);
    NonEmptyFrom(s[i..e], if e < |s| then Fields(s, e + 1) else []);
    if e < |s| { TokensAreFields(s, e + 1); }
  }

  lemma {:induction false} NonEmptyCount(fs: seq<string>)
    ensures |NonEmpty(fs)| <= |fs|
    ensures |NonEmpty(fs)| == |fs| <==> "" !in fs
    ensures "" !in fs ==> NonEmpty(fs) == fs
  {
    if fs != [] { NonEmptyCount(fs[1..]); }
  }

  /** The token pass never writes more segments than the counting pass allocated, and
      exactly as many if and only if no field is empty. */
  lemma PassesAgree(s: string)
    ensures |Tokens(s, 0)| <= Commas(s, 0) + 1
    ensures |Tokens(s, 0)| == Commas(s, 0) + 1 <==> "" !in Fields(s, 0)
    ensures "" !in Fields(s, 0) ==> Tokens(s, 0) == Fields(s, 0)
  {
    FieldsCount(s, 0);
    TokensAreFields(s, 0);
    NonEmptyCount(Fields(s, 0));
  }

  // ------------------------------------------------------------------ the segments

  /** The place of the first ':' of a token, or its length. */
  function Colon(t: string): (k: nat)
    ensures k <= |t|
    ensures k < |t| <==> ':' in t
  {
    if t == "" || t[0] == ':' then 0 else 1 + Colon(t[1..])
  }

  /** gos_get_linear_cvt_arg_token; without a ':' the program aborts. */
  function KnotOf(t: string, atof: string -> real): Option<Knot>
  {
    var k := Colon(t);
    if k == |t| then None else Some(Knot(atof(t[..k]), atof(t[k + 1..])))
  }

  function KnotsOf(ts: seq<string>, atof: string -> real): Option<seq<Knot>>
  {
    if ts == [] then Some([])
    else
      var n := |ts| - 1;
      match (KnotsOf(ts[..n], atof), KnotOf(ts[n], atof))
      case (Some(ks), Some(k)) => Some(ks + [k])
      case _ => None
  }

  /** gos_generate_linear_cvt_arg, gos_generate_tablemap_cvt_arg; None means the program
      aborts. Segments that are allocated but not written stay zero. */
  function Generate(kind: Kind, s: string, atof: string -> real): Option<seq<Segment>>
  {
    var ts := Tokens(s, 0);
    match KnotsOf(ts, atof)
    case None => None
    case Some(ks) =>
      PassesAgree(s); KnotsLength(ts, atof);
      if |ts| < 2 then None
      else Some(Segments(kind, ks) + Repeat(ZERO_SEGMENT, Commas(s, 0) + 1 - |ks|))
  }

  lemma {:induction false} KnotsLength(ts: seq<string>, atof: string -> real)
    ensures KnotsOf(ts, atof).Some? ==> |KnotsOf(ts, atof).value| == |ts|
  {
    if ts != [] { KnotsLength(ts[..|ts| - 1], atof); }
  }

  lemma {:induction false} KnotsOfExactly(ts: seq<string>, atof: string -> real)
    ensures KnotsOf(ts, atof).Some? <==> forall i :: 0 <= i < |ts| ==> ':' in ts[i]
  {
    if ts != [] {
      var n := |ts| - 1;
      KnotsOfExactly(ts[..n], atof);
      assert forall i :: 0 <= i < n ==> ts[..n][i] == ts[i];
      hide Colon;
    }
  }

  /** The knot of a token is the number before its first colon and the one behind it. */
  lemma {:induction false} KnotsRead(ts: seq<string>, atof: string -> real, i: nat, x: string, y: string)
    requires KnotsOf(ts, atof).Some? && i < |ts| && ts[i] == x + ":" + y && ':' !in x
    ensures |KnotsOf(ts, atof).value| == |ts| && KnotsOf(ts, atof).value[i] == Knot(atof(x), atof(y))
  {
    KnotsLength(ts, atof);
    var n := |ts| - 1;
    if i < n {
      KnotsLength(ts[..n], atof);
      KnotsRead(ts[..n], atof, i, x, y);
    } else {
      ColonBehind(x, y);
      assert (x + ":" + y)[..|x|] == x && (x + ":" + y)[|x| + 1..] == y;
    }
  }

  lemma {:induction false} ColonBehind(x: string, y: string)
    requires ':' !in x
    ensures Colon(x + ":" + y) == |x|
  {
    if x == "" {
      assert (x + ":" + y)[0] == ':';
    } else {
      assert (x + ":" + y)[1..] == x[1..] + ":" + y;
      ColonBehind(x[1..], y);
    }
  }

  /** The program aborts on a text exactly if fewer than two of its fields are not empty, or one
      of those has no colon. */
  lemma AbortsExactly(kind: Kind, s: string, atof: string -> real)
    ensures var ts := NonEmpty(Fields(s, 0));
      Generate(kind, s, atof).None? <==> |ts| < 2 || exists i :: 0 <= i < |ts| && ':' !in ts[i]
  {
    TokensAreFields(s, 0);
    KnotsOfExactly(Tokens(s, 0), atof);
    hide Tokens, Fields, NonEmpty, KnotsOf, Segments, Commas;
  }

  /** Without empty fields the segments are exactly those between neighbouring knots, each
      beginning where the one before ends. */
  lemma CleanConfig(kind: Kind, s: string, atof: string -> real)
    requires "" !in Fields(s, 0) && |Fields(s, 0)| >= 2
    requires KnotsOf(Fields(s, 0), atof).Some?
    ensures var ks := KnotsOf(Fields(s, 0), atof).value;
      var segs := Segments(kind, ks);
      && Generate(kind, s, atof) == Some(segs)
      && |segs| == Commas(s, 0) == |ks| - 1
      && forall i :: 0 < i < |segs| ==> segs[i].from == segs[i - 1].to
  {
    PassesAgree(s);
    FieldsCount(s, 0);
    KnotsLength(Fields(s, 0), atof);
    var ks := KnotsOf(Fields(s, 0), atof).value;
    assert Segments(kind, ks) + Repeat(ZERO_SEGMENT, 0) == Segments(kind, ks);
    SegmentsTouch(kind, ks);
  }

  lemma SegmentsTouch(kind: Kind, ks: seq<Knot>)
    ensures forall i :: 0 < i < |Segments(kind, ks)| ==> Segments(kind, ks)[i].from == Segments(kind, ks)[i - 1].to
  {
    hide Segments, Slope;
    var segs := Segments(kind, ks);
    forall i | 0 < i < |segs| ensures segs[i].from == segs[i - 1].to {
      assert segs[i] == SegmentOf(kind, ks[i], ks[i + 1]);
      assert segs[i - 1] == SegmentOf(kind, ks[i - 1], ks[i]);
    }
  }

  lemma MatchAppend(a: seq<Segment>, n: nat, raw: int)
    ensures var r := FirstMatch(a + Repeat(ZERO_SEGMENT, n), raw);
      r == if FirstMatch(a, raw) >= 0 then FirstMatch(a, raw) else if raw == 0 && n > 0 then |a| else -1
  {
    var z := a + Repeat(ZERO_SEGMENT, n);
    var m := FirstMatch(a, raw);
    if m >= 0 {
      assert Covers(z[m], raw);
      assert forall j :: 0 <= j < m ==> !Covers(z[j], raw);
    } else {
      assert forall j :: 0 <= j < |a| ==> z[j] == a[j] && !Covers(z[j], raw);
      assert forall j :: |a| <= j < |z| ==> (Covers(z[j], raw) <==> raw == 0);
      if raw == 0 && n > 0 { assert Covers(z[|a|], raw); }
    }
  }

  /** A configuration converts a reading exactly if its knots cover it, or the reading is
      zero and some field of the text is empty: then a leftover zero segment answers. */
  lemma ConfiguredRange(kind: Kind, s: string, atof: string -> real, offset: real, raw: int)
    requires kind == Linear || kind == TableMap
    requires Generate(kind, s, atof).Some? && Increasing(KnotsOf(Tokens(s, 0), atof).value)
    ensures var ks := KnotsOf(Tokens(s, 0), atof).value;
      var r := Convert(kind, Generate(kind, s, atof).value, offset, raw);
      |ks| >= 2 && (r.Some? <==> ks[0].raw <= raw as real <= ks[|ks| - 1].raw || (raw == 0 && "" in Fields(s, 0)))
  {
    hide Tokens, Commas, Fields, KnotsOf, Segments, FirstMatch, Repeat;
    var ks := KnotsOf(Tokens(s, 0), atof).value;
    PassesAgree(s);
    KnotsLength(Tokens(s, 0), atof);
    MatchAppend(Segments(kind, ks), Commas(s, 0) + 1 - |ks|, raw);
    CoveredRange(kind, ks, raw);
  }

  // -------------------------------------------------------------- the code's loops

  /** The counting pass */
  method CountCommas(s: string) returns (n: nat)
    ensures n == Commas(s, 0)
  {
    n := 0;
    var ptr := 0;
    while ptr < |s|
      invariant ptr <= |s| && n + Commas(s, ptr) == Commas(s, 0)
    {
      if s[ptr] == ',' { n := n + 1; }
      ptr := ptr + 1;
    }
  }

  /** One call of strtok_r: the token, if any, and where to go on. */
  method Strtok(s: string, start: nat) returns (token: Option<string>, ptr: nat)
    requires start <= |s|
    ensures start <= ptr <= |s| && (token.Some? ==> start < ptr)
    ensures match token
      case None => Tokens(s, start) == []
      case Some(t) => Tokens(s, start) == [t] + Tokens(s, ptr)
  {
    var b := start;
    while b < |s| && s[b] == ','
      invariant start <= b <= |s| && Token(s, b) == Token(s, start)
    {
      b := b + 1;
    }
    var e := b;
    while e < |s| && s[e] != ','
      invariant b <= e <= |s| && FieldEnd(s, e) == FieldEnd(s, b)
    {
      e := e + 1;
    }
    if b == e { return None, |s|; }
    return Some(s[b..e]), if e < |s| then e + 1 else e;
  }

  lemma {:induction false} KnotsPrefix(ts: seq<string>, n: nat, atof: string -> real)
    requires n <= |ts| && KnotsOf(ts[..n], atof).None?
    ensures KnotsOf(ts, atof).None?
    decreases |ts|
  {
    if n < |ts| {
      assert ts[..|ts| - 1][..n] == ts[..n];
      KnotsPrefix(ts[..|ts| - 1], n, atof);
    } else {
      assert ts[..n] == ts;
    }
  }

  lemma OneMoreKnot(done: seq<string>, t: string, atof: string -> real)
    ensures KnotsOf(done + [t], atof) ==
      match (KnotsOf(done, atof), KnotOf(t, atof))
      case (Some(ks), Some(k)) => Some(ks + [k])
      case _ => None
  {
    assert (done + [t])[..|done|] == done;
  }

  /** The array after the token pass has written the segments between some knots. */
  ghost predicate Filled(kind: Kind, pseg: seq<Segment>, ks: seq<Knot>)
  {
    && 1 <= |ks| <= |pseg| + 1
    && (forall i :: 0 <= i < |ks| - 1 ==> pseg[i] == SegmentOf(kind, ks[i], ks[i + 1]))
    && (forall i :: |ks| - 1 <= i < |pseg| ==> pseg[i] == ZERO_SEGMENT)
  }

  lemma FilledMeans(kind: Kind, pseg: seq<Segment>, ks: seq<Knot>)
    requires Filled(kind, pseg, ks)
    ensures pseg == Segments(kind, ks) + Repeat(ZERO_SEGMENT, |pseg| + 1 - |ks|)
  {
    hide Segments, SegmentOf, Repeat;
    var segs, z := Segments(kind, ks), Repeat(ZERO_SEGMENT, |pseg| + 1 - |ks|);
    forall i | 0 <= i < |pseg| ensures pseg[i] == (segs + z)[i] {
      if i < |segs| { assert segs[i] == SegmentOf(kind, ks[i], ks[i + 1]); }
      else { assert z[i - |segs|] == ZERO_SEGMENT; }
    }
  }

  /** The token pass has taken `done`, giving `ks`, and holds the next token, if any. */
  ghost predicate Progress(s: string, atof: string -> real, done: seq<string>, ks: seq<Knot>,
                           token: Option<string>, ptr: nat)
  {
    && ptr <= |s| && |done| == |ks| && KnotsOf(done, atof) == Some(ks)
    && match token
       case None => Tokens(s, 0) == done
       case Some(t) => Tokens(s, 0) == done + [t] + Tokens(s, ptr)
  }

  lemma ProgressStarts(s: string, atof: string -> real, token: Option<string>, ptr: nat)
    requires ptr <= |s|
    requires match token case None => Tokens(s, 0) == [] case Some(t) => Tokens(s, 0) == [t] + Tokens(s, ptr)
    ensures Progress(s, atof, [], [], token, ptr)
  {
    hide Tokens;
    if token.Some? { assert [] + [token.value] == [token.value]; }
  }

  /** Taking the token held and fetching the next one; there is a segment left to write. */
  lemma ProgressStep(s: string, atof: string -> real, done: seq<string>, ks: seq<Knot>, t: string, ptr: nat,
                     next: Option<string>, ptr': nat)
    requires Progress(s, atof, done, ks, Some(t), ptr) && ptr' <= |s| && KnotOf(t, atof).Some?
    requires match next
      case None => Tokens(s, ptr) == []
      case Some(u) => Tokens(s, ptr) == [u] + Tokens(s, ptr')
    ensures Progress(s, atof, done + [t], ks + [KnotOf(t, atof).value], next, ptr')
    ensures |ks| <= Commas(s, 0)
  {
    hide Tokens, Commas, KnotOf, KnotsOf, Fields;
    OneMoreKnot(done, t, atof);
    PassesAgree(s);
    if next.Some? {
      assert done + [t] + ([next.value] + Tokens(s, ptr')) == (done + [t]) + [next.value] + Tokens(s, ptr');
    } else {
      assert done + [t] + [] == done + [t];
    }
  }

  /** A malformed token aborts the whole configuration. */
  lemma MalformedToken(kind: Kind, s: string, atof: string -> real, done: seq<string>, ks: seq<Knot>, t: string, ptr: nat)
    requires Progress(s, atof, done, ks, Some(t), ptr) && KnotOf(t, atof).None?
    ensures Generate(kind, s, atof) == None
  {
    hide Tokens, Commas;
    OneMoreKnot(done, t, atof);
    assert Tokens(s, 0)[..|done| + 1] == done + [t];
    KnotsPrefix(Tokens(s, 0), |done| + 1, atof);
  }

  /** gos_generate_linear_cvt_arg and gos_generate_tablemap_cvt_arg: every write to the
      allocated segments is in range. */
  method GenerateSegments(kind: Kind, s: string, atof: string -> real) returns (r: Option<array<Segment>>)
    ensures r.None? <==> Generate(kind, s, atof).None?
    ensures r.Some? ==> fresh(r.value) && Generate(kind, s, atof) == Some(r.value[..])
  {
    hide Tokens, Commas, KnotOf, Slope, SegmentOf, Segments, Fields, KnotsOf, Repeat, Generate, Progress;
    var count := CountCommas(s);
    var pseg := new Segment[count](_ => ZERO_SEGMENT);
    var token, ptr := Strtok(s, 0);
    ProgressStarts(s, atof, token, ptr);
    if token.None? { TooShort(kind, s, atof, [], [], ptr); return None; }
    var first := KnotOf(token.value, atof);
    if first.None? { MalformedToken(kind, s, atof, [], [], token.value, ptr); return None; }
    var from := first.value;
    ghost var done, ks, t, p := [token.value], [from], token.value, ptr;
    token, ptr := Strtok(s, ptr);
    ProgressStep(s, atof, [], [], t, p, token, ptr);
    assert [] + [t] == done && [] + [from] == ks;
    if token.None? { TooShort(kind, s, atof, done, ks, ptr); return None; }
    var n := 0;
    while token.Some?
      invariant ptr <= |s| && Progress(s, atof, done, ks, token, ptr)
      invariant |ks| == n + 1 && ks[n] == from && n <= count && (token.None? ==> n >= 1)
      invariant Filled(kind, pseg[..], ks)
      decreases if token.Some? then |s| - ptr + 1 else 0
    {
      t, p := token.value, ptr;
      var to := KnotOf(token.value, atof);
      if to.None? { MalformedToken(kind, s, atof, done, ks, t, p); return None; }
      token, ptr := Strtok(s, ptr);
      ProgressStep(s, atof, done, ks, t, p, token, ptr);
      pseg[n] := SegmentOf(kind, from, to.value);
      done, ks := done + [t], ks + [to.value];
      from := to.value;
      n := n + 1;
    }
    Finished(kind, s, atof, done, ks, ptr);
    FilledMeans(kind, pseg[..], ks);
    return Some(pseg);
  }

  lemma TooShort(kind: Kind, s: string, atof: string -> real, done: seq<string>, ks: seq<Knot>, ptr: nat)
    requires Progress(s, atof, done, ks, None, ptr) && |done| < 2
    ensures Generate(kind, s, atof) == None
  {
    hide Tokens, Commas;
  }

  lemma Finished(kind: Kind, s: string, atof: string -> real, done: seq<string>, ks: seq<Knot>, ptr: nat)
    requires Progress(s, atof, done, ks, None, ptr) && |ks| >= 2
    ensures |ks| <= Commas(s, 0) + 1
    ensures Generate(kind, s, atof) == Some(Segments(kind, ks) + Repeat(ZERO_SEGMENT, Commas(s, 0) + 1 - |ks|))
  {
    hide Tokens, Commas, Segments, Fields;
    PassesAgree(s);
  }
}
