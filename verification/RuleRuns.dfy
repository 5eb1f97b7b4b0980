/** The rules at work (software/gos/src/gos_rule.c): what the condition flags mean after any
    run of tests and resets, which spans and rules an evaluation acts on, and how often a
    rule can act at all. */
module RuleRuns {
  import opened Basics
  import opened Rules

  /** What is loaded once; the flags and the time of the last execution change. */
  datatype Rule = Rule(spans: seq<Span>, exps: seq<Expression>, acts: seq<Action>, period: int)

  predicate Inside(sp: Span, now: int) { sp.from <= now < sp.to }

  /** The spans stay within the expressions and do not overlap in them. */
  ghost predicate Sound(rule: Rule)
  {
    && (forall j :: 0 <= j < |rule.spans| ==> rule.spans[j].start <= rule.spans[j].end <= |rule.exps|)
    && (forall i, j :: 0 <= i < j < |rule.spans| ==>
          rule.spans[i].end <= rule.spans[j].start || rule.spans[j].start == rule.spans[j].end)
  }

  /** gos_load_rules_exps and gos_load_rules_acts: the allocated but unused spans are zero. */
  function Loaded(rows: seq<Condition>, acts: seq<Action>, period: int): Rule
  {
    var g := Group(rows);
    Rule(g + seq(if |Pairs(rows)| > |g| then |Pairs(rows)| - |g| else 0, i => ZERO_SPAN), Expressions(rows), acts, period)
  }

  function Expressions(rows: seq<Condition>): seq<Expression>
  {
    seq(|rows|, k requires 0 <= k < |rows| => ExpressionOf(rows[k]))
  }

  lemma {:induction false} Ordered(spans: seq<Span>, n: nat, i: nat, j: nat)
    requires Partition(spans, n) && i <= j < |spans|
    ensures i < j ==> spans[i].end <= spans[j].start
    ensures spans[j].end <= n
    decreases |spans| - i + |spans| - j
  {
    if i + 1 < j { Ordered(spans, n, i + 1, j); }
    if j + 1 < |spans| { Ordered(spans, n, j, j + 1); }
  }

  /** Every loaded rule is sound, and each expression lies in exactly one span. */
  lemma LoadedSound(rows: seq<Condition>, acts: seq<Action>, period: int)
    requires TimesOfDay(rows)
    ensures Sound(Loaded(rows, acts, period))
    ensures forall k :: 0 <= k < |rows| ==> Covered(Loaded(rows, acts, period), k)
    ensures Loaded(rows, acts, period).acts == acts && Loaded(rows, acts, period).period == period
  {
    GroupPartitions(rows);
    var g, rule := Group(rows), Loaded(rows, acts, period);
    hide Group, Pairs, BoundsShared;
    forall i, j | 0 <= i <= j < |g|
      ensures g[i].start <= g[i].end <= |rows| && (i < j ==> g[i].end <= g[j].start)
    {
      Ordered(g, |rows|, i, j);
      Ordered(g, |rows|, i, i);
    }
    forall k | 0 <= k < |rows| ensures Covered(rule, k) {
      var j := Find(g, |rows|, k, |g| - 1);
      assert rule.spans[j] == g[j];
    }
  }

  lemma {:induction false} Find(spans: seq<Span>, n: nat, k: nat, top: nat) returns (j: nat)
    requires Partition(spans, n) && top < |spans| && k < spans[top].end
    ensures j < |spans| && spans[j].start <= k < spans[j].end
  {
    if k >= spans[top].start { j := top; } else { j := Find(spans, n, k, top - 1); }
  }

  ghost predicate Covered(rule: Rule, k: nat)
  {
    exists j :: 0 <= j < |rule.spans| && InSpan(rule.spans[j], k)
  }

  predicate InSpan(sp: Span, k: nat) { sp.start <= k < sp.end }

  // ------------------------------------------------------------------------ flags

  type Flags = seq<int>

  function Bit(b: bool): int { if b then 1 else 0 }

  function Verdict(sp: Span, e: Expression, now: int, value: real): int
    requires Inside(sp, now)
  {
    Bit(Holds(e, value, now - sp.from, sp.to - sp.from))
  }

  function TestFlag(sp: Span, e: Expression, flag: int, now: int, sensor: int, value: real, k: nat): int
    requires Inside(sp, now)
  {
    if InSpan(sp, k) && e.sensor == sensor then Verdict(sp, e, now, value) else flag
  }

  /** The inner loop of gos_test_rule, for one span. */
  function TestSpan(sp: Span, exps: seq<Expression>, flags: Flags, now: int, sensor: int, value: real): (r: Flags)
    requires |flags| == |exps|
    ensures |r| == |flags|
  {
    if !Inside(sp, now) then flags
    else seq(|flags|, k requires 0 <= k < |flags| => TestFlag(sp, exps[k], flags[k], now, sensor, value, k))
  }

  /** gos_test_rule over the given spans */
  function TestSpans(spans: seq<Span>, exps: seq<Expression>, flags: Flags, now: int, sensor: int, value: real): (r: Flags)
    requires |flags| == |exps|
    ensures |r| == |flags|
  {
    if spans == [] then flags
    else TestSpan(spans[|spans| - 1], exps, TestSpans(spans[..|spans| - 1], exps, flags, now, sensor, value), now, sensor, value)
  }

  /** gos_reset_rulecondition, or gos_test_rule with a reading of a sensor */
  datatype Event = Reset | Test(now: int, sensor: int, value: real)

  function Step(rule: Rule, flags: Flags, ev: Event): (r: Flags)
    requires |flags| == |rule.exps|
    ensures |r| == |flags|
  {
    match ev
    case Reset => Repeat(0, |rule.exps|)
    case Test(now, sensor, value) => TestSpans(rule.spans, rule.exps, flags, now, sensor, value)
  }

  /** The flags after the events, from a freshly loaded rule. */
  function FlagsAfter(rule: Rule, events: seq<Event>): (r: Flags)
    ensures |r| == |rule.exps|
  {
    if events == [] then Repeat(0, |rule.exps|)
    else Step(rule, FlagsAfter(rule, events[..|events| - 1]), events[|events| - 1])
  }

  /** The events that decide an expression of the span: a reset, or a reading of its own
      sensor at a time inside the span. */
  predicate Decides(sp: Span, e: Expression, ev: Event)
  {
    ev.Reset? || (ev.sensor == e.sensor && sp.from <= ev.now < sp.to)
  }

  function Outcome(sp: Span, e: Expression, ev: Event): int
    requires Decides(sp, e, ev)
  {
    if ev.Reset? then 0 else Verdict(sp, e, ev.now, ev.value)
  }

  lemma {:induction false} OtherSpans(spans: seq<Span>, exps: seq<Expression>, flags: Flags, now: int, sensor: int, value: real, k: nat)
    requires |flags| == |exps| && k < |exps|
    requires forall j :: 0 <= j < |spans| ==> !InSpan(spans[j], k)
    ensures TestSpans(spans, exps, flags, now, sensor, value)[k] == flags[k]
  {
    if spans != [] { OtherSpans(spans[..|spans| - 1], exps, flags, now, sensor, value, k); }
  }

  /** A test changes a flag only if it decides it. */
  lemma {:induction false} TestAt(spans: seq<Span>, exps: seq<Expression>, flags: Flags, ev: Event, j: nat, k: nat)
    requires ev.Test? && |flags| == |exps| && k < |exps| && j < |spans| && InSpan(spans[j], k)
    requires forall i :: 0 <= i < |spans| && InSpan(spans[i], k) ==> i == j
    ensures TestSpans(spans, exps, flags, ev.now, ev.sensor, ev.value)[k]
            == if Decides(spans[j], exps[k], ev) then Outcome(spans[j], exps[k], ev) else flags[k]
  {
    var n := |spans| - 1;
    if j < n {
      TestAt(spans[..n], exps, flags, ev, j, k);
    } else {
      OtherSpans(spans[..n], exps, flags, ev.now, ev.sensor, ev.value, k);
    }
  }

  lemma StepAt(rule: Rule, flags: Flags, ev: Event, j: nat, k: nat)
    requires Sound(rule) && |flags| == |rule.exps| && j < |rule.spans| && InSpan(rule.spans[j], k) && k < |rule.exps|
    ensures Step(rule, flags, ev)[k]
            == if Decides(rule.spans[j], rule.exps[k], ev) then Outcome(rule.spans[j], rule.exps[k], ev) else flags[k]
  {
    if ev.Test? { TestAt(rule.spans, rule.exps, flags, ev, j, k); }
  }

  /** Event i is the last one that decides expression k. */
  ghost predicate LastDeciding(rule: Rule, events: seq<Event>, j: nat, k: nat, i: nat)
    requires j < |rule.spans| && k < |rule.exps|
  {
    && i < |events| && Decides(rule.spans[j], rule.exps[k], events[i])
    && forall m :: i < m < |events| ==> !Decides(rule.spans[j], rule.exps[k], events[m])
  }

  ghost predicate Undecided(rule: Rule, events: seq<Event>, j: nat, k: nat)
    requires j < |rule.spans| && k < |rule.exps|
  {
    forall m :: 0 <= m < |events| ==> !Decides(rule.spans[j], rule.exps[k], events[m])
  }

  lemma {:induction false} FlagOutcome(rule: Rule, events: seq<Event>, j: nat, k: nat)
    requires Sound(rule) && j < |rule.spans| && InSpan(rule.spans[j], k) && k < |rule.exps|
    ensures Undecided(rule, events, j, k) ==> FlagsAfter(rule, events)[k] == 0
    ensures forall i: nat :: LastDeciding(rule, events, j, k, i) ==>
      FlagsAfter(rule, events)[k] == Outcome(rule.spans[j], rule.exps[k], events[i])
    ensures Undecided(rule, events, j, k) || exists i: nat :: LastDeciding(rule, events, j, k, i)
  {
    if events != [] {
      var n := |events| - 1;
      var init, ev := events[..n], events[n];
      FlagOutcome(rule, init, j, k);
      StepAt(rule, FlagsAfter(rule, init), ev, j, k);
      DecidingGrows(rule, events, j, k);
      hide Step, Sound, LastDeciding, Undecided, Decides, Outcome;
      if Decides(rule.spans[j], rule.exps[k], ev) {
        assert LastDeciding(rule, events, j, k, n);
      } else if !Undecided(rule, init, j, k) {
        var i: nat :| LastDeciding(rule, init, j, k, i);
        assert LastDeciding(rule, events, j, k, i);
      }
    }
  }

  /** Event i is the last reading of the expression's sensor taken inside its span since the
      last reset, and the expression held at it. */
  ghost predicate HeldAt(rule: Rule, events: seq<Event>, j: nat, k: nat, i: nat)
    requires j < |rule.spans| && k < |rule.exps|
  {
    var sp := rule.spans[j];
    && LastDeciding(rule, events, j, k, i) && events[i].Test?
    && Holds(rule.exps[k], events[i].value, events[i].now - sp.from, sp.to - sp.from)
  }

  ghost predicate HeldLast(rule: Rule, events: seq<Event>, j: nat, k: nat)
    requires j < |rule.spans| && k < |rule.exps|
  {
    exists i: nat :: HeldAt(rule, events, j, k, i)
  }

  /** After any run of resets and tests a flag is 1 exactly if its expression held at the last
      reading of its sensor taken inside its span since the last reset, and 0 otherwise. */
  lemma FlagMeaning(rule: Rule, events: seq<Event>, j: nat, k: nat)
    requires Sound(rule) && j < |rule.spans| && InSpan(rule.spans[j], k) && k < |rule.exps|
    ensures FlagsAfter(rule, events)[k] == 1 <==> HeldLast(rule, events, j, k)
    ensures FlagsAfter(rule, events)[k] == 0 <==> !HeldLast(rule, events, j, k)
  {
    hide FlagsAfter, Undecided, Holds, Decides;
    FlagOutcome(rule, events, j, k);
    OneDeciding(rule, events, j, k);
    if !Undecided(rule, events, j, k) {
      var i: nat :| LastDeciding(rule, events, j, k, i);
      OutcomeIs(rule.spans[j], rule.exps[k], events[i]);
      if HeldLast(rule, events, j, k) {
        var h: nat :| HeldAt(rule, events, j, k, h);
        assert h == i;
      } else {
        assert !HeldAt(rule, events, j, k, i);
      }
    } else {
      NoneHeld(rule, events, j, k);
    }
    hide LastDeciding, Outcome;
  }

  lemma OutcomeIs(sp: Span, e: Expression, ev: Event)
    requires Decides(sp, e, ev)
    ensures Outcome(sp, e, ev) == 0 || Outcome(sp, e, ev) == 1
    ensures Outcome(sp, e, ev) == 1 <==> ev.Test? && sp.to > sp.from && Holds(e, ev.value, ev.now - sp.from, sp.to - sp.from)
  {
    hide Holds;
  }

  lemma OneDeciding(rule: Rule, events: seq<Event>, j: nat, k: nat)
    requires j < |rule.spans| && k < |rule.exps|
    ensures forall i: nat, h: nat :: LastDeciding(rule, events, j, k, i) && LastDeciding(rule, events, j, k, h) ==> i == h
    ensures forall i: nat :: LastDeciding(rule, events, j, k, i) ==>
      i < |events| && Decides(rule.spans[j], rule.exps[k], events[i])
  {
    hide Decides;
  }

  lemma NoneHeld(rule: Rule, events: seq<Event>, j: nat, k: nat)
    requires j < |rule.spans| && k < |rule.exps| && Undecided(rule, events, j, k)
    ensures !HeldLast(rule, events, j, k)
  {
    hide Decides, Holds;
  }

  lemma DecidingGrows(rule: Rule, events: seq<Event>, j: nat, k: nat)
    requires events != [] && j < |rule.spans| && k < |rule.exps|
    ensures var n := |events| - 1;
      if Decides(rule.spans[j], rule.exps[k], events[n]) then
        !Undecided(rule, events, j, k) && forall i: nat :: LastDeciding(rule, events, j, k, i) <==> i == n
      else
        && (Undecided(rule, events, j, k) <==> Undecided(rule, events[..n], j, k))
        && forall i: nat :: LastDeciding(rule, events, j, k, i) <==> LastDeciding(rule, events[..n], j, k, i)
  {
    hide Decides;
    var n := |events| - 1;
    var init := events[..n];
    assert forall m :: 0 <= m < n ==> init[m] == events[m];
  }

  ghost predicate Binary(flags: Flags)
  {
    forall k :: 0 <= k < |flags| ==> flags[k] == 0 || flags[k] == 1
  }

  lemma {:induction false} TestsBinary(spans: seq<Span>, exps: seq<Expression>, flags: Flags, now: int, sensor: int, value: real)
    requires |flags| == |exps| && Binary(flags)
    ensures Binary(TestSpans(spans, exps, flags, now, sensor, value))
  {
    if spans != [] { TestsBinary(spans[..|spans| - 1], exps, flags, now, sensor, value); }
  }

  lemma {:induction false} FlagsBinary(rule: Rule, events: seq<Event>)
    ensures Binary(FlagsAfter(rule, events))
  {
    if events != [] {
      var init, ev := events[..|events| - 1], events[|events| - 1];
      FlagsBinary(rule, init);
      if ev.Test? { TestsBinary(rule.spans, rule.exps, FlagsAfter(rule, init), ev.now, ev.sensor, ev.value); }
    }
  }

  // ------------------------------------------------------------------- evaluation

  function Sum(s: seq<int>): int
  {
    if s == [] then 0 else Sum(s[..|s| - 1]) + s[|s| - 1]
  }

  lemma {:induction false} SumOfBits(s: seq<int>)
    requires Binary(s)
    ensures 0 <= Sum(s) <= |s|
    ensures Sum(s) == |s| <==> forall k :: 0 <= k < |s| ==> s[k] == 1
  {
    if s != [] {
      var n := |s| - 1;
      SumOfBits(s[..n]);
      if Sum(s) == |s| { forall k | 0 <= k < |s| ensures s[k] == 1 { if k < n { assert s[..n][k] == 1; } } }
      if forall k :: 0 <= k < |s| ==> s[k] == 1 { assert forall k :: 0 <= k < n ==> s[..n][k] == 1; }
    }
  }

  /** The test of gos_evaluate_rules: the flags of the span add up to its length. */
  predicate Matched(sp: Span, flags: Flags)
  {
    sp.start <= sp.end <= |flags| && Sum(flags[sp.start..sp.end]) == sp.end - sp.start
  }

  /** After any run the test succeeds exactly if every condition of the span holds. */
  lemma MatchedExactly(rule: Rule, events: seq<Event>, j: nat)
    requires Sound(rule) && j < |rule.spans|
    ensures Matched(rule.spans[j], FlagsAfter(rule, events))
            <==> forall k :: 0 <= k < |rule.exps| && InSpan(rule.spans[j], k) ==> FlagsAfter(rule, events)[k] == 1
  {
    var flags, sp := FlagsAfter(rule, events), rule.spans[j];
    FlagsBinary(rule, events);
    hide FlagsAfter, Sum;
    var part := flags[sp.start..sp.end];
    SumOfBits(part);
    assert forall m :: 0 <= m < |part| ==> part[m] == flags[sp.start + m];
    assert forall k :: sp.start <= k < sp.end ==> flags[k] == part[k - sp.start];
  }

  /** The spans of one rule that are acted on, and whether the evaluation is now stopping. */
  datatype Visits = Visits(spans: seq<nat>, stop: bool)

  predicate InTable(rule: Rule, visited: seq<nat>)
  {
    forall i :: 0 <= i < |visited| ==> visited[i] < |rule.spans|
  }

  predicate NotBelow(j: nat, visited: seq<nat>)
  {
    forall i :: 0 <= i < |visited| ==> j <= visited[i]
  }

  /** The inner loop of gos_evaluate_rules from span j on. */
  function VisitFrom(rule: Rule, flags: Flags, now: int, stop: bool, j: nat): (r: Visits)
    requires j <= |rule.spans|
    ensures InTable(rule, r.spans) && NotBelow(j, r.spans)
    ensures r.spans == [] ==> r.stop == stop
    decreases |rule.spans| - j
  {
    if j == |rule.spans| then Visits([], stop)
    else
      var sp := rule.spans[j];
      var stopping := stop || (Inside(sp, now) && Matched(sp, flags));
      var here := if Inside(sp, now) then [j] else [];
      if stopping then Visits(here, true)
      else
        var rest := VisitFrom(rule, flags, now, false, j + 1);
        Visits(here + rest.spans, rest.stop)
  }

  ghost predicate Fires(rule: Rule, flags: Flags, now: int, j: nat)
  {
    j < |rule.spans| && rule.spans[j].from <= now < rule.spans[j].to && Matched(rule.spans[j], flags)
  }

  lemma {:induction false} VisitStops(rule: Rule, flags: Flags, now: int, stop: bool, from: nat)
    requires from <= |rule.spans|
    ensures VisitFrom(rule, flags, now, stop, from).stop <==> stop || exists j :: from <= j && Fires(rule, flags, now, j)
    decreases |rule.spans| - from
  {
    hide Matched;
    if from < |rule.spans| {
      VisitStops(rule, flags, now, false, from + 1);
      VisitUnfolds(rule, flags, now, stop, from);
      hide VisitFrom;
      assert stop || Fires(rule, flags, now, from) || forall j :: from <= j && Fires(rule, flags, now, j) ==> from + 1 <= j;
    }
  }

  /** Span j is acted on by a loop that starts at `from`. */
  ghost predicate Reached(rule: Rule, flags: Flags, now: int, stop: bool, from: nat, j: nat)
  {
    && from <= j < |rule.spans| && rule.spans[j].from <= now < rule.spans[j].to
    && if stop then j == from else forall i :: from <= i < j ==> !Fires(rule, flags, now, i)
  }

  /** Until a match anywhere, a rule acts on every span it is inside of, up to and including
      its own first match. Once an earlier rule has matched, it still acts on its first span. */
  lemma {:induction false} VisitsExact(rule: Rule, flags: Flags, now: int, stop: bool, from: nat)
    requires from <= |rule.spans|
    ensures forall j: nat :: j in VisitFrom(rule, flags, now, stop, from).spans <==> Reached(rule, flags, now, stop, from, j)
    decreases |rule.spans| - from
  {
    hide Matched;
    if from < |rule.spans| {
      VisitsExact(rule, flags, now, false, from + 1);
      VisitUnfolds(rule, flags, now, stop, from);
      hide VisitFrom;
      var v, rest := VisitFrom(rule, flags, now, stop, from).spans, VisitFrom(rule, flags, now, false, from + 1).spans;
      forall j: nat ensures j in v <==> Reached(rule, flags, now, stop, from, j) {
        assert j in rest <==> Reached(rule, flags, now, false, from + 1, j);
        if !stop && from < j && !Fires(rule, flags, now, from) {
          assert Reached(rule, flags, now, stop, from, j) <==> Reached(rule, flags, now, false, from + 1, j);
        }
      }
    }
  }

  lemma VisitUnfolds(rule: Rule, flags: Flags, now: int, stop: bool, j: nat)
    requires j < |rule.spans|
    ensures var sp := rule.spans[j];
      var stopping := stop || (Inside(sp, now) && Matched(sp, flags));
      var here := if Inside(sp, now) then [j] else [];
      var v, rest := VisitFrom(rule, flags, now, stop, j), VisitFrom(rule, flags, now, false, j + 1);
      v == if stopping then Visits(here, true) else Visits(here + rest.spans, rest.stop)
  {}

  predicate Rises(v: seq<nat>)
  {
    forall a, b :: 0 <= a < b < |v| ==> v[a] < v[b]
  }

  lemma RisesInFront(j: nat, rest: seq<nat>)
    requires Rises(rest) && NotBelow(j + 1, rest)
    ensures Rises([j] + rest)
  {
    var v := [j] + rest;
    forall a, b | 0 <= a < b < |v| ensures v[a] < v[b] {
      if a == 0 { assert v[b] == rest[b - 1]; } else { assert v[b] == rest[b - 1] && v[a] == rest[a - 1]; }
    }
  }

  lemma NothingInFront(j: nat, rest: seq<nat>)
    ensures [] + rest == rest && Rises([j])
  {
  }

  /** No span is acted on twice, and they come in the order of the table. */
  lemma {:induction false} VisitsInOrder(rule: Rule, flags: Flags, now: int, stop: bool, from: nat)
    requires from <= |rule.spans|
    ensures Rises(VisitFrom(rule, flags, now, stop, from).spans)
    decreases |rule.spans| - from
  {
    if from < |rule.spans| {
      VisitsInOrder(rule, flags, now, false, from + 1);
      VisitUnfolds(rule, flags, now, stop, from);
      RisesInFront(from, VisitFrom(rule, flags, now, false, from + 1).spans);
      NothingInFront(from, VisitFrom(rule, flags, now, false, from + 1).spans);
      hide VisitFrom, NotBelow, Inside, Matched;
    }
  }

  /** A rule with its flags and the second of the day it last acted. */
  datatype Live = Live(rule: Rule, flags: Flags, lastexec: int)

  predicate Due(r: Live, now: int) { r.lastexec + r.rule.period < now }

  /** The body of the outer loop of gos_evaluate_rules, for one rule. */
  function Visited(r: Live, now: int, stop: bool): (v: Visits)
    ensures InTable(r.rule, v.spans)
  {
    if Due(r, now) then VisitFrom(r.rule, r.flags, now, stop, 0) else Visits([], stop)
  }

  /** gos_evaluate_rules over the first n rules: what each visited, and the stop flag. */
  function Evaluate(rules: seq<Live>, now: int, n: nat): (r: (seq<seq<nat>>, bool))
    requires n <= |rules|
    ensures |r.0| == n
    ensures forall i :: 0 <= i < n ==> InTable(rules[i].rule, r.0[i])
  {
    if n == 0 then ([], false)
    else
      var before := Evaluate(rules, now, n - 1);
      var v := Visited(rules[n - 1], now, before.1);
      (before.0 + [v.spans], v.stop)
  }

  /** Some due rule below n has a matched span at this time. */
  ghost predicate MatchBelow(rules: seq<Live>, now: int, n: nat)
    requires n <= |rules|
  {
    exists i, j :: 0 <= i < n && Due(rules[i], now) && Fires(rules[i].rule, rules[i].flags, now, j)
  }

  /** What the source acts on in one evaluation, rule by rule. The match of a rule does not
      keep the later rules from acting: each of them still acts on its first span. */
  lemma {:induction false} EvaluationExact(rules: seq<Live>, now: int, n: nat)
    requires n <= |rules|
    ensures Evaluate(rules, now, n).1 <==> MatchBelow(rules, now, n)
    ensures forall i, j: nat :: 0 <= i < n ==> (j in Evaluate(rules, now, n).0[i] <==> ActsOn(rules, now, i, j))
  {
    if n > 0 {
      var m := n - 1;
      var r, before, all := rules[m], Evaluate(rules, now, m), Evaluate(rules, now, n);
      EvaluationExact(rules, now, m);
      VisitsExact(r.rule, r.flags, now, before.1, 0);
      VisitStops(r.rule, r.flags, now, before.1, 0);
      hide VisitFrom, Fires, Inside;
      assert all.0[..m] == before.0;
      forall i, j: nat | 0 <= i < n ensures j in all.0[i] <==> ActsOn(rules, now, i, j) {
        if i < m { assert all.0[i] == before.0[i]; }
      }
      MatchGrows(rules, now, m);
    }
  }

  lemma MatchGrows(rules: seq<Live>, now: int, m: nat)
    requires m < |rules|
    ensures MatchBelow(rules, now, m + 1) <==>
      MatchBelow(rules, now, m) || (Due(rules[m], now) && exists j :: Fires(rules[m].rule, rules[m].flags, now, j))
  {
    hide Fires, Due;
    if j :| Due(rules[m], now) && Fires(rules[m].rule, rules[m].flags, now, j) {}
  }

  ghost predicate ActsOn(rules: seq<Live>, now: int, i: nat, j: nat)
    requires i < |rules|
  {
    var r := rules[i];
    && Due(r, now) && j < |r.rule.spans| && r.rule.spans[j].from <= now < r.rule.spans[j].to
    && if MatchBelow(rules, now, i) then j == 0 else forall m :: 0 <= m < j ==> !Fires(r.rule, r.flags, now, m)
  }

  /** Every condition of the span held at the last reading of its sensor taken inside the span
      since the last reset; one without such a reading did not. */
  ghost predicate AllHeld(rule: Rule, events: seq<Event>, j: nat)
    requires j < |rule.spans|
  {
    forall k :: 0 <= k < |rule.exps| && InSpan(rule.spans[j], k) ==> HeldLast(rule, events, j, k)
  }

  /** What is executed for a span whose conditions all held, or did not: the true actions, or
      the false ones. A rule without true actions reads before its table in the first case
      and executes nothing in the other. */
  function Decision(acts: seq<Action>, held: bool, some: bool): Option<seq<Action>>
  {
    if held then if some then Some(TrueActions(acts)) else None
    else Some(if some then FalseActions(acts) else [])
  }

  /** What a due rule executes for a span it acts on, after any run, is decided by its
      conditions and the readings alone. */
  lemma SpanDecidesActions(rule: Rule, events: seq<Event>, j: nat)
    requires Sound(rule) && j < |rule.spans| && ActionsSorted(rule.acts)
    ensures Branch(rule.acts, Matched(rule.spans[j], FlagsAfter(rule, events)))
            == Decision(rule.acts, AllHeld(rule, events, j), SomeTrue(rule.acts))
  {
    MatchedExactly(rule, events, j);
    BranchesExact(rule.acts);
    forall k | 0 <= k < |rule.exps| && InSpan(rule.spans[j], k)
      ensures FlagsAfter(rule, events)[k] == 1 <==> HeldLast(rule, events, j, k)
    {
      FlagMeaning(rule, events, j, k);
    }
    hide Matched, FlagsAfter, TrueActions, FalseActions, HeldLast;
    if !SomeTrue(rule.acts) { IndexIsFirst(rule.acts); }
  }

  function Calls(rule: Rule, flags: Flags, visited: seq<nat>): (r: seq<Call>)
    requires InTable(rule, visited)
    ensures |r| == |visited|
  {
    seq(|visited|, i requires 0 <= i < |visited| => CallFor(rule.acts, Matched(rule.spans[visited[i]], flags)))
  }

  // --------------------------------------------------------------- runs of all rules

  /** What the clock shows, as a second of the day, after rule i acted on its span j. */
  type Clock = (nat, nat) -> int

  /** A reading tested on every rule, the reset of all flags, or an evaluation that began in
      second `now` of the day. */
  datatype Happening = Reading(now: int, sensor: int, value: real) | ResetAll | Round(now: int, clock: Clock)

  /** The time noted by rule i after it acted on the given spans: the last of them gives it. */
  function Noted(lastexec: int, visited: seq<nat>, clock: Clock, i: nat): int
  {
    if visited == [] then lastexec else clock(i, visited[|visited| - 1])
  }

  function Settled(r: Live, visited: seq<nat>, clock: Clock, i: nat): Live
  {
    r.(lastexec := Noted(r.lastexec, visited, clock, i))
  }

  predicate Fit(rules: seq<Live>) { forall i :: 0 <= i < |rules| ==> |rules[i].flags| == |rules[i].rule.exps| }

  function Happen(rules: seq<Live>, h: Happening): (r: seq<Live>)
    requires Fit(rules)
    ensures |r| == |rules| && Fit(r) && forall i :: 0 <= i < |rules| ==> r[i].rule == rules[i].rule
  {
    match h
    case Reading(now, sensor, value) =>
      seq(|rules|, i requires 0 <= i < |rules| => rules[i].(flags := Step(rules[i].rule, rules[i].flags, Test(now, sensor, value))))
    case ResetAll =>
      seq(|rules|, i requires 0 <= i < |rules| => rules[i].(flags := Step(rules[i].rule, rules[i].flags, Reset)))
    case Round(now, clock) =>
      var visited := Evaluate(rules, now, |rules|).0;
      seq(|rules|, i requires 0 <= i < |rules| => Settled(rules[i], visited[i], clock, i))
  }

  /** gos_load_rules: nothing tested, nothing executed. */
  function Fresh(rules: seq<Rule>): (r: seq<Live>)
    ensures |r| == |rules| && Fit(r) && forall i :: 0 <= i < |rules| ==> r[i] == Live(rules[i], Repeat(0, |rules[i].exps|), 0)
  {
    seq(|rules|, i requires 0 <= i < |rules| => Live(rules[i], Repeat(0, |rules[i].exps|), 0))
  }

  function After(rules: seq<Rule>, run: seq<Happening>): (r: seq<Live>)
    ensures |r| == |rules| && Fit(r) && forall i :: 0 <= i < |rules| ==> r[i].rule == rules[i]
  {
    if run == [] then Fresh(rules) else Happen(After(rules, run[..|run| - 1]), run[|run| - 1])
  }

  /** The tests and resets of a run; evaluations leave the flags alone. */
  function FlagEvents(run: seq<Happening>): seq<Event>
  {
    if run == [] then []
    else
      var init := FlagEvents(run[..|run| - 1]);
      match run[|run| - 1]
      case Reading(now, sensor, value) => init + [Test(now, sensor, value)]
      case ResetAll => init + [Reset]
      case Round(_, _) => init
  }

  /** The flags of every rule depend on the tests and resets alone, so FlagMeaning and
      SpanDecidesActions hold in every state of every run. */
  lemma {:induction false} FlagsOverRuns(rules: seq<Rule>, run: seq<Happening>, i: nat)
    requires i < |rules|
    ensures After(rules, run)[i].flags == FlagsAfter(rules[i], FlagEvents(run))
  {
    if run != [] {
      var init, h := run[..|run| - 1], run[|run| - 1];
      FlagsOverRuns(rules, init, i);
      hide Step, Evaluate;
      if !h.Round? {
        var e := if h.ResetAll? then Reset else Test(h.now, h.sensor, h.value);
        assert FlagEvents(run) == FlagEvents(init) + [e];
        assert FlagEvents(run)[..|FlagEvents(init)|] == FlagEvents(init);
      }
    }
  }

  /** How many evaluations of the run rule i acted in. */
  function TimesActed(rules: seq<Rule>, run: seq<Happening>, i: nat): nat
    requires i < |rules|
  {
    if run == [] then 0
    else
      var init, h := run[..|run| - 1], run[|run| - 1];
      var before := After(rules, init);
      TimesActed(rules, init, i) + if Acts(before, h, i) then 1 else 0
  }

  const DAY := 86400

  /** Every evaluation begins in a second of the day. */
  ghost predicate BegunInDay(run: seq<Happening>)
  {
    forall m :: 0 <= m < |run| && run[m].Round? ==> 0 <= run[m].now < DAY
  }

  /** Every reading of the clock is a second of the day; any of them may lie behind a midnight. */
  ghost predicate SecondsOfDay(run: seq<Happening>)
  {
    BegunInDay(run) && forall m :: 0 <= m < |run| && run[m].Round? ==> ShowsSeconds(run[m].clock)
  }

  ghost predicate ShowsSeconds(clock: Clock)
  {
    forall i: nat, j: nat :: 0 <= clock(i, j) < DAY
  }

  predicate Acts(rules: seq<Live>, h: Happening, i: nat)
    requires i < |rules|
  {
    h.Round? && Evaluate(rules, h.now, |rules|).0[i] != []
  }

  lemma HappenAt(rules: seq<Live>, h: Happening, i: nat)
    requires Fit(rules) && i < |rules|
    ensures !Acts(rules, h, i) ==> Happen(rules, h)[i].lastexec == rules[i].lastexec
    ensures Acts(rules, h, i) ==>
      && h.Round? && Due(rules[i], h.now)
      && (exists j :: 0 <= j < |rules[i].rule.spans| && Inside(rules[i].rule.spans[j], h.now))
      && (ShowsSeconds(h.clock) ==> 0 <= Happen(rules, h)[i].lastexec < DAY)
  {
    if h.Round? {
      EvaluationExact(rules, h.now, |rules|);
      var visited := Evaluate(rules, h.now, |rules|).0[i];
      if visited != [] {
        assert visited[0] in visited;
        assert ActsOn(rules, h.now, i, visited[0]);
      }
    }
  }

  /** Rule i acts and notes an earlier second than the one in which the evaluation began: a
      midnight fell within it. */
  predicate SetsBack(rules: seq<Live>, h: Happening, i: nat)
    requires Fit(rules) && i < |rules|
  {
    Acts(rules, h, i) && Happen(rules, h)[i].lastexec < h.now
  }

  /** How many evaluations of the run set the time of rule i back. */
  function SetBacks(rules: seq<Rule>, run: seq<Happening>, i: nat): nat
    requires i < |rules|
  {
    if run == [] then 0
    else
      var init, h := run[..|run| - 1], run[|run| - 1];
      SetBacks(rules, init, i) + if SetsBack(After(rules, init), h, i) then 1 else 0
  }

  lemma OneMore(t: nat, p: nat, b: nat, last: int, now: int, noted: int)
    requires t * (p + 1) <= b * DAY + last && last + p < now < DAY && 0 <= noted
    ensures noted >= now ==> (t + 1) * (p + 1) <= b * DAY + noted
    ensures (t + 1) * (p + 1) <= (b + 1) * DAY + noted
  {
    assert (t + 1) * (p + 1) == t * (p + 1) + (p + 1);
    assert (b + 1) * DAY == b * DAY + DAY;
  }

  lemma RunUnfolds(rules: seq<Rule>, run: seq<Happening>, i: nat)
    requires run != [] && i < |rules|
    ensures var before, h := After(rules, run[..|run| - 1]), run[|run| - 1];
      && After(rules, run) == Happen(before, h)
      && TimesActed(rules, run, i) == TimesActed(rules, run[..|run| - 1], i) + if Acts(before, h, i) then 1 else 0
  {}

  lemma SetBacksUnfolds(rules: seq<Rule>, run: seq<Happening>, i: nat)
    requires run != [] && i < |rules|
    ensures var before, h := After(rules, run[..|run| - 1]), run[|run| - 1];
      SetBacks(rules, run, i) == SetBacks(rules, run[..|run| - 1], i)
        + if Acts(before, h, i) && Happen(before, h)[i].lastexec < h.now then 1 else 0
  {}

  /** The time of the last execution is a second of the day that a midnight between two
      evaluations does not set back. So over the whole life of the server the evaluations
      in which a rule acts, each longer after the one before than its period, fit into one
      day, and into one more for every evaluation that a midnight falls into. */
  lemma {:induction false} ActsBounded(rules: seq<Rule>, run: seq<Happening>, i: nat)
    requires i < |rules| && rules[i].period >= 0 && SecondsOfDay(run)
    ensures 0 <= After(rules, run)[i].lastexec < DAY
    ensures TimesActed(rules, run, i) * (rules[i].period + 1) <= SetBacks(rules, run, i) * DAY + After(rules, run)[i].lastexec
  {
    if run != [] {
      var init, h := run[..|run| - 1], run[|run| - 1];
      ActsBounded(rules, init, i);
      var before, p := After(rules, init), rules[i].period;
      var t, b := TimesActed(rules, init, i), SetBacks(rules, init, i);
      RunUnfolds(rules, run, i);
      SetBacksUnfolds(rules, run, i);
      hide Happen, Acts, After, TimesActed, SetBacks, ShowsSeconds;
      HappenAt(before, h, i);
      if Acts(before, h, i) {
        assert ShowsSeconds(h.clock);
        OneMore(t, p, b, before[i].lastexec, h.now, After(rules, run)[i].lastexec);
      }
    }
  }

  /** At some second of the day left after its last execution and its period the rule is
      inside one of its spans. */
  ghost predicate CanActAgain(rule: Rule, lastexec: int)
  {
    exists j, now :: 0 <= j < |rule.spans| && 0 <= now && lastexec + rule.period < now < DAY && Inside(rule.spans[j], now)
  }

  lemma StaysAway(rules: seq<Live>, h: Happening, i: nat)
    requires Fit(rules) && i < |rules| && !CanActAgain(rules[i].rule, rules[i].lastexec) && (h.Round? ==> 0 <= h.now < DAY)
    ensures !Acts(rules, h, i) && Happen(rules, h)[i].lastexec == rules[i].lastexec
  {
    HappenAt(rules, h, i);
    hide Acts, Inside, Happen;
  }

  /** Otherwise the rule acts in no continuation, whatever the clock shows after its begin. */
  lemma {:induction false} NeverAgain(rules: seq<Rule>, run: seq<Happening>, more: seq<Happening>, i: nat)
    requires i < |rules| && BegunInDay(more) && !CanActAgain(rules[i], After(rules, run)[i].lastexec)
    ensures TimesActed(rules, run + more, i) == TimesActed(rules, run, i)
    ensures After(rules, run + more)[i].lastexec == After(rules, run)[i].lastexec
  {
    if more == [] {
      assert run + more == run;
    } else {
      var init, h := more[..|more| - 1], more[|more| - 1];
      var all := run + more;
      assert all[..|all| - 1] == run + init && all[|all| - 1] == h;
      NeverAgain(rules, run, init, i);
      var before := After(rules, run + init);
      RunUnfolds(rules, all, i);
      hide Happen, Acts, After, TimesActed, CanActAgain;
      StaysAway(before, h, i);
    }
  }

  /** Every span that has any seconds has expressions; loaded rules are like that. */
  ghost predicate Populated(rule: Rule)
  {
    Sound(rule) && forall j :: 0 <= j < |rule.spans| && rule.spans[j].from < rule.spans[j].to ==> rule.spans[j].start < rule.spans[j].end
  }

  lemma LoadedPopulated(rows: seq<Condition>, acts: seq<Action>, period: int)
    requires TimesOfDay(rows)
    ensures Populated(Loaded(rows, acts, period))
  {
    LoadedSound(rows, acts, period);
    GroupPartitions(rows);
    hide Group, Pairs, BoundsShared, Sound;
  }

  /** With all flags cleared nothing matches. */
  lemma NothingFires(rule: Rule, now: int, j: nat)
    requires Populated(rule)
    ensures !Fires(rule, Repeat(0, |rule.exps|), now, j)
  {
    if j < |rule.spans| && Inside(rule.spans[j], now) {
      var sp, flags := rule.spans[j], Repeat(0, |rule.exps|);
      var part := flags[sp.start..sp.end];
      SumOfBits(part);
      assert part[0] == 0;
    }
  }

  /** Before any reading an evaluation acts on every open span of every loaded rule, from the
      first second of the day that is more than its period. */
  lemma FirstRound(rules: seq<Rule>, now: int, i: nat, j: nat)
    requires i < |rules| && forall m :: 0 <= m < |rules| ==> Populated(rules[m])
    ensures ActsOn(After(rules, []), now, i, j)
            <==> rules[i].period < now && j < |rules[i].spans| && rules[i].spans[j].from <= now < rules[i].spans[j].to
  {
    hide Fires, Populated;
    var live := After(rules, []);
    forall m, k: nat | 0 <= m < |rules| ensures !Fires(live[m].rule, live[m].flags, now, k) {
      NothingFires(rules[m], now, k);
    }
    assert !MatchBelow(live, now, i);
  }

  lemma ResetClears(rules: seq<Live>)
    requires Fit(rules)
    ensures var cleared := Happen(rules, ResetAll);
      forall k :: 0 <= k < |rules| ==> cleared[k].flags == Repeat(0, |cleared[k].rule.exps|) && cleared[k].lastexec == rules[k].lastexec
  {}

  /** A due rule that is inside a span acts right after the flags were cleared. */
  lemma ActsAfterReset(rules: seq<Live>, now: int, i: nat, j: nat)
    requires Fit(rules) && i < |rules| && forall k :: 0 <= k < |rules| ==> Populated(rules[k].rule)
    requires forall k :: 0 <= k < |rules| ==> rules[k].flags == Repeat(0, |rules[k].rule.exps|)
    requires Due(rules[i], now) && j < |rules[i].rule.spans| && Inside(rules[i].rule.spans[j], now)
    ensures Evaluate(rules, now, |rules|).0[i] != []
  {
    EvaluationExact(rules, now, |rules|);
    forall k, m: nat | 0 <= k < |rules| ensures !Fires(rules[k].rule, rules[k].flags, now, m) {
      NothingFires(rules[k].rule, now, m);
    }
    hide Fires, Evaluate, Populated;
    assert ActsOn(rules, now, i, j);
  }

  lemma ActsNext(rules: seq<Rule>, run: seq<Happening>, i: nat, j: nat, now: int) returns (more: seq<Happening>)
    requires i < |rules| && (forall k :: 0 <= k < |rules| ==> Populated(rules[k])) && 0 <= now < DAY
    requires j < |rules[i].spans| && Due(After(rules, run)[i], now) && Inside(rules[i].spans[j], now)
    ensures BegunInDay(more) && TimesActed(rules, run + more, i) > TimesActed(rules, run, i)
  {
    var round := Round(now, (_, _) => now);
    more := [ResetAll, round];
    var cleared := Happen(After(rules, run), ResetAll);
    TwoMore(rules, run, i, ResetAll, round);
    ResetClears(After(rules, run));
    hide After, TimesActed, Evaluate, Populated, Inside, Happen;
    ActsAfterReset(cleared, now, i, j);
  }

  lemma TwoMore(rules: seq<Rule>, run: seq<Happening>, i: nat, g: Happening, h: Happening)
    requires i < |rules|
    ensures TimesActed(rules, run + [g, h], i)
            >= TimesActed(rules, run, i) + if Acts(Happen(After(rules, run), g), h, i) then 1 else 0
  {
    var first, all := run + [g], run + [g, h];
    assert first[..|first| - 1] == run && all[..|all| - 1] == first && all[|all| - 1] == h;
    RunUnfolds(rules, first, i);
    RunUnfolds(rules, all, i);
    hide After, TimesActed, Happen, Acts;
  }

  ghost predicate ActsLater(rules: seq<Rule>, run: seq<Happening>, more: seq<Happening>, i: nat)
    requires i < |rules|
  {
    BegunInDay(more) && TimesActed(rules, run + more, i) > TimesActed(rules, run, i)
  }

  /** Whatever has happened: there is a continuation in which a rule acts again exactly if
      some second of the day, later than its last execution and its period, lies in one of
      its spans. No midnight changes that. */
  lemma ActsAgainExactly(rules: seq<Rule>, run: seq<Happening>, i: nat)
    requires i < |rules| && forall k :: 0 <= k < |rules| ==> Populated(rules[k])
    ensures (exists more :: ActsLater(rules, run, more, i)) <==> CanActAgain(rules[i], After(rules, run)[i].lastexec)
  {
    hide After, TimesActed, Populated, Inside, BegunInDay;
    var rule, lastexec := rules[i], After(rules, run)[i].lastexec;
    if CanActAgain(rule, lastexec) {
      var j, now :| 0 <= j < |rule.spans| && 0 <= now && lastexec + rule.period < now < DAY && Inside(rule.spans[j], now);
      var more := ActsNext(rules, run, i, j, now);
      assert ActsLater(rules, run, more, i);
    } else if more :| ActsLater(rules, run, more, i) {
      NeverAgain(rules, run, more, i);
      assert false;
    }
  }

  // ------------------------------------------------------- what an evaluation executes

  /** The calls of gos_execute_action of one evaluation, rule by rule */
  function RoundCalls(rules: seq<Live>, now: int): (r: seq<seq<Call>>)
    ensures |r| == |rules|
  {
    var visited := Evaluate(rules, now, |rules|).0;
    seq(|rules|, i requires 0 <= i < |rules| => Calls(rules[i].rule, rules[i].flags, visited[i]))
  }

  /** From readings to orders: after any run an evaluation makes one call for each span a rule
      acts on, in the order of the table, and each call executes what the conditions of its
      span decide. */
  lemma RoundExecutes(rules: seq<Rule>, run: seq<Happening>, now: int, i: nat) returns (visited: seq<nat>)
    requires i < |rules| && Sound(rules[i]) && ActionsSorted(rules[i].acts)
    ensures var calls := RoundCalls(After(rules, run), now)[i];
      && Rises(visited) && |calls| == |visited|
      && (forall j: nat :: j in visited <==> ActsOn(After(rules, run), now, i, j))
      && forall a :: 0 <= a < |visited| ==>
           visited[a] < |rules[i].spans|
           && Executed(rules[i].acts, calls[a].offset, calls[a].num)
              == Decision(rules[i].acts, AllHeld(rules[i], FlagEvents(run), visited[a]), SomeTrue(rules[i].acts))
  {
    var state := After(rules, run);
    visited := Evaluate(state, now, |state|).0[i];
    EvaluationExact(state, now, |state|);
    EvaluatedInOrder(state, now, |state|, i);
    FlagsOverRuns(rules, run, i);
    forall a | 0 <= a < |visited|
      ensures Executed(rules[i].acts, Calls(rules[i], state[i].flags, visited)[a].offset, Calls(rules[i], state[i].flags, visited)[a].num)
              == Decision(rules[i].acts, AllHeld(rules[i], FlagEvents(run), visited[a]), SomeTrue(rules[i].acts))
    {
      SpanDecidesActions(rules[i], FlagEvents(run), visited[a]);
    }
    hide Evaluate, FlagsAfter, Decision, AllHeld, ActsOn, Matched, Executed, CallFor, After, FlagEvents, Sound;
  }

  lemma {:induction false} EvaluatedInOrder(rules: seq<Live>, now: int, n: nat, i: nat)
    requires i < n <= |rules|
    ensures Rises(Evaluate(rules, now, n).0[i])
  {
    if i < n - 1 {
      EvaluatedInOrder(rules, now, n - 1, i);
    } else {
      VisitsInOrder(rules[i].rule, rules[i].flags, now, Evaluate(rules, now, i).1, 0);
    }
  }

  /** Span j is the last one of rule i that the evaluation acts on. */
  ghost predicate ActsLast(rules: seq<Live>, now: int, i: nat, j: nat)
    requires i < |rules|
  {
    ActsOn(rules, now, i, j) && forall m: nat :: ActsOn(rules, now, i, m) ==> m <= j
  }

  lemma TopOf(v: seq<nat>)
    requires Rises(v) && v != []
    ensures forall j :: j in v ==> j <= v[|v| - 1]
  {
  }

  /** An evaluation leaves the time of a rule alone that acts on no span, and notes for any
      other what the clock showed after the last span it acted on. */
  lemma RoundNotes(rules: seq<Live>, now: int, clock: Clock, i: nat)
    requires Fit(rules) && i < |rules|
    ensures var noted := Happen(rules, Round(now, clock))[i].lastexec;
      && ((forall j: nat :: !ActsOn(rules, now, i, j)) ==> noted == rules[i].lastexec)
      && forall j: nat :: ActsLast(rules, now, i, j) ==> noted == clock(i, j)
  {
    hide Evaluate, ActsOn, Rises;
    EvaluationExact(rules, now, |rules|);
    EvaluatedInOrder(rules, now, |rules|, i);
    var v := Evaluate(rules, now, |rules|).0[i];
    if v != [] {
      var top := v[|v| - 1];
      TopOf(v);
      assert top in v;
    }
  }

  /** The operand of a row at a second of its span, as the code computes it. */
  function Operand(sp: Span, row: Condition, now: int): real
    requires sp.from < sp.to
  {
    var length, passed := (sp.to - sp.from) as real, (now - sp.from) as real;
    row.arg1 + (row.arg2 - row.arg1) / length * passed / length
  }

  /** The condition of a row holds at a reading: its text stands between the operand of that
      second and the reading. An unknown text counts as "<". */
  predicate RowHolds(sp: Span, row: Condition, now: int, value: real)
    requires sp.from < sp.to
  {
    TextSays(if row.op in {"<", ">", "=", "<=", ">=", "!="} then row.op else "<", Operand(sp, row, now), value)
  }

  lemma OperandIs(sp: Span, row: Condition, now: int)
    requires sp.from < sp.to
    ensures Interpolated(row.arg1, row.arg2, sp.to - sp.from, now - sp.from) == Operand(sp, row, now)
  {
  }

  lemma TextIs(op: string)
    ensures var known := op in {"<", ">", "=", "<=", ">=", "!="}; ConvertOp(op) == ConvertOp(if known then op else "<")
  {
  }

  /** An expression of a loaded rule is the condition of its row. */
  lemma ExpressionIsRow(sp: Span, row: Condition, now: int, value: real)
    requires sp.from < sp.to
    ensures ExpressionOf(row).sensor == row.sensor
    ensures Holds(ExpressionOf(row), value, now - sp.from, sp.to - sp.from) <==> RowHolds(sp, row, now, value)
  {
    var op := if row.op in {"<", ">", "=", "<=", ">=", "!="} then row.op else "<";
    TextIs(row.op);
    OperandIs(sp, row, now);
    OperatorExact(op, row.sensor, row.arg1, row.arg2, value, now - sp.from, sp.to - sp.from);
    hide Interpolated, Operand, Holds, TextSays, ConvertOp;
  }

  /** Event i is the last reading of the row's sensor taken inside the span since the last
      reset, and the condition of the row held at it. */
  ghost predicate RowHeldAt(rule: Rule, rows: seq<Condition>, events: seq<Event>, j: nat, k: nat, i: nat)
    requires j < |rule.spans| && k < |rule.exps| == |rows|
  {
    var sp := rule.spans[j];
    && LastDeciding(rule, events, j, k, i) && events[i].Test? && events[i].sensor == rows[k].sensor
    && sp.from < sp.to && RowHolds(sp, rows[k], events[i].now, events[i].value)
  }

  /** The flag of a loaded row, in terms of the row: after any run it is 1 exactly if the row's
      condition held at the last reading that counts for it. */
  lemma LoadedFlag(rows: seq<Condition>, acts: seq<Action>, period: int, events: seq<Event>, j: nat, k: nat)
    requires TimesOfDay(rows) && k < |rows|
    requires var rule := Loaded(rows, acts, period); j < |rule.spans| && InSpan(rule.spans[j], k)
    ensures var rule := Loaded(rows, acts, period);
      && |rule.exps| == |rows|
      && (FlagsAfter(rule, events)[k] == 1 <==> exists i: nat :: RowHeldAt(rule, rows, events, j, k, i))
  {
    var rule := Loaded(rows, acts, period);
    LoadedSound(rows, acts, period);
    FlagMeaning(rule, events, j, k);
    OneDeciding(rule, events, j, k);
    assert rule.exps[k] == ExpressionOf(rows[k]);
    hide Group, Pairs, FlagsAfter, Holds, ExpressionOf, RowHolds, LastDeciding, Sound, TimesOfDay;
    forall i: nat ensures HeldAt(rule, events, j, k, i) <==> RowHeldAt(rule, rows, events, j, k, i) {
      if LastDeciding(rule, events, j, k, i) && events[i].Test? {
        ExpressionIsRow(rule.spans[j], rows[k], events[i].now, events[i].value);
      }
    }
  }
}
