/** The rule table in place (software/gos/src/gos_rule.c): the loading loops, the loops that
    set and clear the condition flags, and the evaluation loops. */
module RuleEngine {
  import opened Basics
  import opened Rules
  import opened RuleRuns

  /** The branch of the grouping loop; the present span is the last one filled, or the first. */
  method PlaceRow(times: array<Span>, n: nat, r: Condition, i: nat) returns (m: nat)
    requires n <= times.Length && |Extend(times[..n], r, i)| <= times.Length && times.Length > 0
    requires n == 0 ==> times[0] == Span(-1, -1, 0, 0) && r.from >= 0 && r.to >= 0
    modifies times
    ensures 0 < m <= times.Length && n <= m && times[..m] == Extend(old(times[..n]), r, i)
    ensures forall k :: m <= k < times.Length ==> times[k] == old(times[k])
  {
    m := n;
    var cur := if n == 0 then 0 else n - 1;
    if times[cur].from != r.from && times[cur].to != r.to {
      times[m] := Span(r.from, r.to, i, i + 1);
      m := m + 1;
    } else {
      times[cur] := times[cur].(end := times[cur].end + 1);
    }
  }

  /** The loop of gos_load_rules_exps over the rows of the table */
  method FillTables(rows: seq<Condition>, times: array<Span>, exps: array<Expression>)
    requires TimesOfDay(rows) && Sorted(rows) && exps.Length == |rows| && times.Length == |Pairs(rows)|
    requires forall k :: 0 <= k < times.Length ==> times[k] == ZERO_SPAN
    modifies times, exps
    ensures |Group(rows)| <= times.Length && times[..|Group(rows)|] == Group(rows)
    ensures forall k :: (if |Group(rows)| == 0 then 1 else |Group(rows)|) <= k < times.Length ==> times[k] == ZERO_SPAN
    ensures forall k :: 0 <= k < |rows| ==> exps[k] == ExpressionOf(rows[k])
  {
    hide Group, Extend, Sorted, TimesOfDay, Pairs, ExpressionOf;
    var n := 0;
    if times.Length > 0 { times[0] := Span(-1, -1, 0, 0); }
    var i := 0;
    assert rows[..0] == [];
    NothingGrouped();
    while i < |rows|
      invariant 0 <= i <= |rows|
      invariant n <= times.Length && times[..n] == Group(rows[..i]) && (i > 0 ==> n > 0)
      invariant n == 0 && times.Length > 0 ==> times[0] == Span(-1, -1, 0, 0)
      invariant forall k :: (if n == 0 then 1 else n) <= k < times.Length ==> times[k] == ZERO_SPAN
      invariant forall k :: 0 <= k < i ==> exps[k] == ExpressionOf(rows[k])
    {
      RoomForNext(rows, i);
      n := PlaceRow(times, n, rows[i], i);
      exps[i] := ExpressionOf(rows[i]);
      i := i + 1;
    }
    assert rows[..i] == rows;
  }

  /** gos_rule_t */
  class RuleRecord {
    var period: int
    var lastexec: int
    var actsidx: int
    var actions: array<Action>
    var times: array<Span>
    var exps: array<Expression>
    var satisfied: array<int>

    ghost predicate Valid()
      reads this, actions
    {
      satisfied.Length == exps.Length && actsidx == ActsIndex(actions[..])
    }

    ghost function View(): Live
      reads this, actions, times, exps, satisfied
    {
      Live(Rule(times[..], exps[..], actions[..], period), satisfied[..], lastexec)
    }

    /** gos_load_rules_acts */
    method LoadActs(rows: seq<Action>)
      modifies this
      ensures fresh(actions) && actions[..] == rows && actsidx == ActsIndex(rows)
      ensures unchanged(this`period, this`lastexec, this`times, this`exps, this`satisfied)
    {
      actions := new Action[|rows|](_ => Action(0, 0, 0, 0));
      actsidx := -1;
      var i := 0;
      while i < |rows|
        invariant 0 <= i <= |rows| == actions.Length && fresh(actions)
        invariant actions[..i] == rows[..i] && actsidx == ActsIndex(rows[..i])
        invariant unchanged(this`period, this`lastexec, this`times, this`exps, this`satisfied)
      {
        if actsidx < 0 && rows[i].istrue > 0 { actsidx := i; }
        actions[i] := rows[i];
        assert rows[..i + 1][..i] == rows[..i];
        i := i + 1;
      }
      assert rows[..i] == rows;
    }

    /** gos_load_rules_exps; `nspan` is the database's count of distinct time pairs. */
    method LoadExps(rows: seq<Condition>, nspan: nat)
      requires TimesOfDay(rows) && Sorted(rows) && nspan == |Pairs(rows)|
      modifies this
      ensures fresh(times) && fresh(exps) && fresh(satisfied)
      ensures var rule := Loaded(rows, [], period); times[..] == rule.spans && exps[..] == rule.exps
      ensures satisfied[..] == Repeat(0, |rows|)
      ensures unchanged(this`period, this`lastexec, this`actsidx, this`actions)
    {
      var ts := new Span[nspan](_ => ZERO_SPAN);
      satisfied := new int[|rows|](_ => 0);
      var es := new Expression[|rows|](_ => Expression(0, 0, 0.0, 0.0));
      FillTables(rows, ts, es);
      LoadedIs(rows, period, ts[..], es[..]);
      hide Group, Loaded, Pairs;
      times, exps := ts, es;
    }

    /** gos_reset_rulecondition, for one rule */
    method Reset()
      requires Valid()
      modifies satisfied
      ensures Valid() && satisfied[..] == Step(View().rule, old(satisfied[..]), Event.Reset)
    {
      forall k | 0 <= k < satisfied.Length { satisfied[k] := 0; }
    }

    /** gos_test_rule */
    method Test(now: int, sensor: int, value: real)
      requires Valid() && Sound(View().rule)
      modifies satisfied
      ensures Valid() && satisfied[..] == Step(View().rule, old(satisfied[..]), Event.Test(now, sensor, value))
    {
      ghost var spans, es := times[..], exps[..];
      var j := 0;
      while j < times.Length
        invariant 0 <= j <= times.Length
        invariant satisfied[..] == TestSpans(spans[..j], es, old(satisfied[..]), now, sensor, value)
      {
        var sp := times[j];
        ghost var before := satisfied[..];
        assert spans[..j + 1][..j] == spans[..j] && spans[j] == sp;
        if !(now < sp.from || now >= sp.to) {
          var k := sp.start;
          while k < sp.end
            invariant sp.start <= k <= sp.end
            invariant forall m :: 0 <= m < |before| ==>
              satisfied[m] == if m < k then TestFlag(sp, es[m], before[m], now, sensor, value, m) else before[m]
          {
            if sensor == exps[k].sensor {
              satisfied[k] := Bit(Holds(exps[k], value, now - sp.from, sp.to - sp.from));
            }
            k := k + 1;
          }
        }
        assert satisfied[..] == TestSpan(sp, es, before, now, sensor, value);
        j := j + 1;
      }
      assert spans[..j] == spans;
    }

    /** The sum over the flags of one span */
    method CountSatisfied(sp: Span) returns (m: int)
      requires sp.start <= sp.end <= satisfied.Length
      ensures m == Sum(satisfied[sp.start..sp.end])
    {
      m := 0;
      var k := sp.start;
      while k < sp.end
        invariant sp.start <= k <= sp.end && m == Sum(satisfied[sp.start..k])
      {
        assert satisfied[sp.start..k + 1][..k - sp.start] == satisfied[sp.start..k];
        m := m + satisfied[k];
        k := k + 1;
      }
    }

    /** The body of the inner loop of gos_evaluate_rules: the call of gos_execute_action, if
        the time lies in the span. */
    method ActOnSpan(j: nat, now: int, clock: Clock, at: nat) returns (matched: bool, made: seq<Call>)
      requires Valid() && j < times.Length && times[j].start <= times[j].end <= satisfied.Length
      modifies this`lastexec
      ensures Valid()
      ensures matched == (Inside(times[j], now) && Matched(times[j], satisfied[..]))
      ensures made == if Inside(times[j], now) then [CallFor(actions[..], matched)] else []
      ensures lastexec == if Inside(times[j], now) then clock(at, j) else old(lastexec)
    {
      matched, made := false, [];
      var sp := times[j];
      if now >= sp.from && now < sp.to {
        var m := CountSatisfied(sp);
        assert satisfied[..][sp.start..sp.end] == satisfied[sp.start..sp.end];
        if m == sp.end - sp.start {
          made := [Call(actsidx, actions.Length - actsidx)];
          matched := true;
        } else {
          made := [Call(0, actsidx)];
        }
        lastexec := clock(at, j);
      }
    }

    /** The same body against the specification: the loop goes on, or is left, as it should. */
    method Advance(now: int, clock: Clock, at: nat, ghost first: bool, was: bool, j: nat, ghost seen: seq<nat>, done: seq<Call>)
      returns (stop: bool, ghost visited: seq<nat>, calls: seq<Call>)
      requires Valid() && Sound(View().rule) && j < times.Length
      requires Progress(View().rule, satisfied[..], now, first, was, j, seen, done)
      modifies this`lastexec
      ensures Valid()
      ensures if stop then Finished(View().rule, satisfied[..], now, first, true, visited, calls)
              else Progress(View().rule, satisfied[..], now, first, false, j + 1, visited, calls)
      ensures forall last :: old(lastexec) == Noted(last, seen, clock, at) ==> lastexec == Noted(last, visited, clock, at)
    {
      hide Matched, CallFor, Progress, Finished, InTable, ActsIndex;
      ghost var rule, flags := View().rule, satisfied[..];
      assert rule.spans[j] == times[j];
      VisitStep(rule, flags, now, first, was, j, seen, done);
      var matched, made := ActOnSpan(j, now, clock, at);
      visited := if Inside(rule.spans[j], now) then seen + [j] else seen;
      stop, calls := was || matched, done + made;
      if made == [] { assert calls == done; }
      assert View().rule == rule && satisfied[..] == flags;
    }

    /** The inner loop of gos_evaluate_rules: the calls of gos_execute_action it makes. */
    method EvaluateSpans(now: int, clock: Clock, at: nat, wasStopping: bool) returns (stop: bool, calls: seq<Call>)
      requires Valid() && Sound(View().rule)
      modifies this`lastexec
      ensures Valid()
      ensures var v := VisitFrom(View().rule, satisfied[..], now, wasStopping, 0);
        && stop == v.stop && calls == Calls(View().rule, satisfied[..], v.spans)
        && lastexec == Noted(old(lastexec), v.spans, clock, at)
    {
      stop, calls := wasStopping, [];
      ghost var rule, flags, visited: seq<nat> := View().rule, satisfied[..], [];
      hide Matched, CallFor, VisitFrom, Calls, Sound, ActsIndex, Progress, Inside, Finished, InTable, NotBelow, Noted;
      NoVisitsYet(rule, flags, now, wasStopping);
      NothingNoted(lastexec, clock, at);
      var j := 0;
      while j < times.Length
        invariant 0 <= j <= times.Length && Valid() && View().rule == rule && satisfied[..] == flags
        invariant Progress(rule, flags, now, wasStopping, stop, j, visited, calls)
        invariant lastexec == Noted(old(lastexec), visited, clock, at)
      {
        stop, visited, calls := Advance(now, clock, at, wasStopping, stop, j, visited, calls);
        if stop { break; }
        j := j + 1;
      }
      AllVisited(rule, flags, now, wasStopping, stop, j, visited, calls);
      FinishedMeans(rule, flags, now, wasStopping, stop, visited, calls);
    }

    /** The body of the outer loop of gos_evaluate_rules */
    method EvaluateRule(now: int, clock: Clock, at: nat, wasStopping: bool) returns (stop: bool, calls: seq<Call>)
      requires Valid() && Sound(View().rule)
      modifies this`lastexec
      ensures Valid()
      ensures var v := Visited(old(View()), now, wasStopping);
        stop == v.stop && calls == Calls(View().rule, satisfied[..], v.spans) && View() == Settled(old(View()), v.spans, clock, at)
    {
      if lastexec + period >= now {
        return wasStopping, [];
      }
      stop, calls := EvaluateSpans(now, clock, at, wasStopping);
    }
  }

  /** What the loop over the spans has done before span j, when it goes on from there. */
  ghost predicate Progress(rule: Rule, flags: Flags, now: int, first: bool, stop: bool, j: nat, visited: seq<nat>, calls: seq<Call>)
  {
    && j <= |rule.spans|
    && InTable(rule, visited)
    && calls == Calls(rule, flags, visited)
    && var all, rest := VisitFrom(rule, flags, now, first, 0), VisitFrom(rule, flags, now, stop, j);
       all.spans == visited + rest.spans && all.stop == rest.stop
  }

  /** What it has done when it leaves at span j. */
  ghost predicate Finished(rule: Rule, flags: Flags, now: int, first: bool, stop: bool, visited: seq<nat>, calls: seq<Call>)
  {
    var all := VisitFrom(rule, flags, now, first, 0);
    && InTable(rule, visited)
    && calls == Calls(rule, flags, visited) && all.spans == visited && all.stop == stop
  }

  lemma FinishedMeans(rule: Rule, flags: Flags, now: int, first: bool, stop: bool, visited: seq<nat>, calls: seq<Call>)
    requires Finished(rule, flags, now, first, stop, visited, calls)
    ensures var all := VisitFrom(rule, flags, now, first, 0); all.spans == visited && all.stop == stop && calls == Calls(rule, flags, all.spans)
  {}

  lemma NoVisitsYet(rule: Rule, flags: Flags, now: int, first: bool)
    ensures Progress(rule, flags, now, first, first, 0, [], [])
  {}

  lemma NothingNoted(last: int, clock: Clock, at: nat)
    ensures Noted(last, [], clock, at) == last
  {}

  lemma AllVisited(rule: Rule, flags: Flags, now: int, first: bool, stop: bool, j: nat, visited: seq<nat>, calls: seq<Call>)
    requires Finished(rule, flags, now, first, stop, visited, calls) || (Progress(rule, flags, now, first, stop, j, visited, calls) && j == |rule.spans|)
    ensures Finished(rule, flags, now, first, stop, visited, calls)
  {}

  lemma VisitStep(rule: Rule, flags: Flags, now: int, first: bool, stop: bool, j: nat, seen: seq<nat>, calls: seq<Call>)
    requires j < |rule.spans| && Progress(rule, flags, now, first, stop, j, seen, calls)
    ensures var sp := rule.spans[j];
      var hit := Inside(sp, now) && Matched(sp, flags);
      var visited := if Inside(sp, now) then seen + [j] else seen;
      var made := if Inside(sp, now) then calls + [CallFor(rule.acts, hit)] else calls;
      if stop || hit then Finished(rule, flags, now, first, true, visited, made)
      else Progress(rule, flags, now, first, false, j + 1, visited, made)
  {
    hide Matched, CallFor, Inside;
    VisitUnfolds(rule, flags, now, stop, j);
    CallsAppend(rule, flags, seen, j);
    hide VisitFrom, Calls;
    if Inside(rule.spans[j], now) {
      var rest := VisitFrom(rule, flags, now, false, j + 1).spans;
      assert seen + ([j] + rest) == seen + [j] + rest;
    }
  }

  lemma LoadedIs(rows: seq<Condition>, period: int, spans: seq<Span>, exps: seq<Expression>)
    requires TimesOfDay(rows)
    requires |spans| == |Pairs(rows)| && |Group(rows)| <= |spans| && spans[..|Group(rows)|] == Group(rows)
    requires forall k :: (if |Group(rows)| == 0 then 1 else |Group(rows)|) <= k < |spans| ==> spans[k] == ZERO_SPAN
    requires |exps| == |rows| && forall k :: 0 <= k < |exps| ==> exps[k] == ExpressionOf(rows[k])
    ensures spans == Loaded(rows, [], period).spans && exps == Loaded(rows, [], period).exps
  {
    GroupPartitions(rows);
    if rows == [] { assert Pairs(rows) == {}; }
    hide Group, Pairs, ExpressionOf, TimesOfDay, BoundsShared;
    var g := Group(rows);
    assert g != [] || spans == [];
  }

  lemma CallsAppend(rule: Rule, flags: Flags, seen: seq<nat>, j: nat)
    requires j < |rule.spans| && InTable(rule, seen)
    ensures Calls(rule, flags, seen + [j]) == Calls(rule, flags, seen) + [CallFor(rule.acts, Matched(rule.spans[j], flags))]
  {}

  lemma RoomForNext(rows: seq<Condition>, i: nat)
    requires i < |rows| && TimesOfDay(rows) && Sorted(rows)
    ensures Group(rows[..i + 1]) == Extend(Group(rows[..i]), rows[i], i)
    ensures 0 < |Group(rows[..i + 1])| <= |Pairs(rows)|
    ensures rows[i].from >= 0 && rows[i].to >= 0
    ensures i == 0 ==> Group(rows[..i]) == []
  {
    var next := rows[..i + 1];
    assert next[..i] == rows[..i];
    SpansFit(next);
    GroupPartitions(next);
    SubsetCount(Pairs(next), Pairs(rows)) by {
      forall p | p in Pairs(next) ensures p in Pairs(rows) {
        var k :| 0 <= k < |next| && p == (next[k].from, next[k].to);
        assert p == (rows[k].from, rows[k].to);
      }
    }
  }

  /** gos_ruleset_t: no two rules share a record or a flag array. */
  ghost predicate Separate(rules: seq<RuleRecord>)
    reads rules
  {
    forall i, j :: 0 <= i < j < |rules| ==> rules[i] != rules[j] && rules[i].satisfied != rules[j].satisfied
  }

  ghost function Tables(rules: seq<RuleRecord>): set<object>
    reads rules
  {
    (set i | 0 <= i < |rules| :: rules[i].satisfied as object) + (set i | 0 <= i < |rules| :: rules[i].actions as object)
    + (set i | 0 <= i < |rules| :: rules[i].times as object) + (set i | 0 <= i < |rules| :: rules[i].exps as object)
  }

  ghost predicate Ready(rules: seq<RuleRecord>)
    reads rules, Tables(rules)
  {
    Separate(rules) && forall i :: 0 <= i < |rules| ==> rules[i].Valid() && Sound(rules[i].View().rule)
  }

  ghost function Views(rules: seq<RuleRecord>): (r: seq<Live>)
    reads rules, Tables(rules)
    ensures |r| == |rules| && forall i :: 0 <= i < |rules| ==> r[i] == rules[i].View()
    ensures Ready(rules) ==> Fit(r)
  {
    seq(|rules|, i requires 0 <= i < |rules| reads rules, Tables(rules) => rules[i].View())
  }

  lemma FlagsSet(was: seq<Live>, are: seq<Live>, h: Happening, e: Event)
    requires Fit(was) && |are| == |was|
    requires h == (match e case Reset => Happening.ResetAll case Test(now, sensor, value) => Reading(now, sensor, value))
    requires forall i :: 0 <= i < |was| ==> are[i] == was[i].(flags := Step(was[i].rule, was[i].flags, e))
    ensures are == Happen(was, h)
  {}

  /** gos_reset_rulecondition */
  method ResetAll(rules: seq<RuleRecord>)
    requires Ready(rules)
    modifies set i | 0 <= i < |rules| :: rules[i].satisfied
    ensures Ready(rules) && Views(rules) == Happen(old(Views(rules)), Happening.ResetAll)
  {
    ghost var was := Views(rules);
    hide Step, Sound, ActsIndex, Happen;
    var n := 0;
    while n < |rules|
      invariant 0 <= n <= |rules|
      invariant forall i :: 0 <= i < n ==> rules[i].View() == was[i].(flags := Step(was[i].rule, was[i].flags, Event.Reset))
      invariant forall i :: n <= i < |rules| ==> rules[i].View() == was[i]
    {
      rules[n].Reset();
      n := n + 1;
    }
    FlagsSet(was, Views(rules), Happening.ResetAll, Event.Reset);
  }

  /** gos_test_rules; the time of day is read once */
  method TestAll(rules: seq<RuleRecord>, now: int, sensor: int, value: real)
    requires Ready(rules)
    modifies set i | 0 <= i < |rules| :: rules[i].satisfied
    ensures Ready(rules) && Views(rules) == Happen(old(Views(rules)), Reading(now, sensor, value))
  {
    ghost var was := Views(rules);
    hide Step, Sound, ActsIndex, Happen;
    var n := 0;
    while n < |rules|
      invariant 0 <= n <= |rules|
      invariant forall i :: 0 <= i < n ==> rules[i].View() == was[i].(flags := Step(was[i].rule, was[i].flags, Event.Test(now, sensor, value)))
      invariant forall i :: n <= i < |rules| ==> rules[i].View() == was[i]
    {
      rules[n].Test(now, sensor, value);
      n := n + 1;
    }
    FlagsSet(was, Views(rules), Reading(now, sensor, value), Event.Test(now, sensor, value));
  }

  lemma Evaluated(rules: seq<Live>, now: int, n: nat)
    requires n < |rules|
    ensures Evaluate(rules, now, 0) == ([], false)
    ensures var before, v := Evaluate(rules, now, n), Visited(rules[n], now, Evaluate(rules, now, n).1);
      Evaluate(rules, now, n + 1).0 == before.0 + [v.spans] && Evaluate(rules, now, n + 1).1 == v.stop
  {}

  /** What the evaluation has done to the first n rules. */
  ghost predicate Through(was: seq<Live>, are: seq<Live>, now: int, clock: Clock, n: nat, stop: bool, calls: seq<seq<Call>>)
  {
    && n <= |was| == |are| && |calls| == n
    && var done := Evaluate(was, now, n);
       && stop == done.1
       && (forall i :: 0 <= i < n ==> calls[i] == Calls(was[i].rule, was[i].flags, done.0[i]))
       && (forall i :: 0 <= i < n ==> are[i] == Settled(was[i], done.0[i], clock, i))
       && (forall i :: n <= i < |was| ==> are[i] == was[i])
  }

  lemma ThroughNext(was: seq<Live>, are: seq<Live>, next: seq<Live>, now: int, clock: Clock, n: nat, stop: bool, calls: seq<seq<Call>>)
    requires n < |was| && Through(was, are, now, clock, n, stop, calls) && |next| == |are|
    requires forall i :: 0 <= i < |are| && i != n ==> next[i] == are[i]
    requires next[n] == Settled(was[n], Visited(was[n], now, stop).spans, clock, n)
    ensures var v := Visited(was[n], now, stop);
      Through(was, next, now, clock, n + 1, v.stop, calls + [Calls(was[n].rule, was[n].flags, v.spans)])
  {
    Evaluated(was, now, n);
    hide Evaluate, Visited, Calls, InTable;
  }

  lemma ThroughAll(was: seq<Live>, are: seq<Live>, now: int, clock: Clock, stop: bool, calls: seq<seq<Call>>)
    requires Fit(was) && Through(was, are, now, clock, |was|, stop, calls)
    ensures are == Happen(was, Round(now, clock)) && calls == RoundCalls(was, now)
  {}

  lemma ThroughNone(was: seq<Live>, now: int, clock: Clock)
    ensures Through(was, was, now, clock, 0, false, [])
  {}

  /** One rule of the table; the others are left alone. */
  method EvaluateAt(rules: seq<RuleRecord>, n: nat, now: int, clock: Clock, was: bool) returns (stop: bool, made: seq<Call>)
    requires Ready(rules) && n < |rules|
    modifies rules[n]
    ensures Ready(rules)
    ensures forall i :: 0 <= i < |rules| && i != n ==> Views(rules)[i] == old(Views(rules)[i])
    ensures var r := old(Views(rules)[n]); var v := Visited(r, now, was);
      stop == v.stop && made == Calls(r.rule, r.flags, v.spans) && Views(rules)[n] == Settled(r, v.spans, clock, n)
  {
    hide Sound, Visited, Calls, InTable, ActsIndex;
    stop, made := rules[n].EvaluateRule(now, clock, n, was);
  }

  /** gos_evaluate_rules: `now` is its first reading of the time of day, `clock` gives the
      reading after each execution. */
  method EvaluateAll(rules: seq<RuleRecord>, now: int, clock: Clock) returns (calls: seq<seq<Call>>)
    requires Ready(rules)
    modifies rules
    ensures Ready(rules) && Views(rules) == Happen(old(Views(rules)), Round(now, clock))
    ensures calls == RoundCalls(old(Views(rules)), now)
  {
    ghost var was := Views(rules);
    assert Fit(was);
    hide Sound, Visited, Calls, InTable, ActsIndex, Through, Happen, RoundCalls, Evaluate, Settled, Fit, Ready;
    calls := [];
    ThroughNone(was, now, clock);
    var stop, n := false, 0;
    while n < |rules|
      invariant 0 <= n <= |rules| && Ready(rules)
      invariant Through(was, Views(rules), now, clock, n, stop, calls)
      invariant forall i :: n <= i < |rules| ==> Views(rules)[i] == was[i]
    {
      ghost var are, before, stopping := Views(rules), calls, stop;
      var made;
      stop, made := EvaluateAt(rules, n, now, clock, stop);
      calls := calls + [made];
      ThroughNext(was, are, Views(rules), now, clock, n, stopping, before);
      n := n + 1;
    }
    ThroughAll(was, Views(rules), now, clock, stop, calls);
  }
}
