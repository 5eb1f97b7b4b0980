/** The automatic control rules (software/gos/src/gos_rule.c): how conditions are grouped
    into time spans, how readings set the condition flags, and which actions a rule
    executes. `double` is taken as a real number. */
module Rules {
  import opened Basics

  /** One row of gos_control_rule_condition. */
  datatype Condition = Condition(from: int, to: int, op: string, sensor: int, arg1: real, arg2: real)

  /** gos_rexp_t */
  datatype Expression = Expression(op: nat, sensor: int, arg1: real, arg2: real)

  /** gos_rtimespan_t: the expressions start..end are tested from `from` until before `to`. */
  datatype Span = Span(from: int, to: int, start: nat, end: nat)

  const ZERO_SPAN := Span(0, 0, 0, 0)

  /** One row of gos_control_rule_action. */
  datatype Action = Action(istrue: int, actuator: int, arg: int, wtime: int)

  // ------------------------------------------------------------------ expressions

  /** gos_get_interpolated: the source divides by the span twice. */
  function Interpolated(arg1: real, arg2: real, span: int, ndiff: int): real
    requires span > 0
  {
    arg1 + (arg2 - arg1) / span as real * ndiff as real / span as real
  }

  /** The straight line from arg1 at the start to arg2 at the end of the span. */
  function StraightLine(arg1: real, arg2: real, span: int, ndiff: int): real
    requires span > 0
  {
    arg1 + (arg2 - arg1) * ndiff as real / span as real
  }

  lemma Cancel(a: real, b: real)
    requires a * b == 0.0
    ensures a == 0.0 || b == 0.0
  {}

  lemma ScaledBack(x: real, s: real)
    requires s > 0.0
    ensures x / s == x <==> x == 0.0 || s == 1.0
  {
    var y := x / s;
    assert y * s == x;
    if y == x {
      assert y * (s - 1.0) == 0.0;
      Cancel(y, s - 1.0);
    }
    if x == 0.0 { Cancel(y, s); }
    if s == 1.0 { assert y * 1.0 == x; }
  }

  /** The code interpolates along the straight line exactly when the span lasts one second,
      at the start of the span, or when both operands are equal. */
  lemma InterpolationExact(arg1: real, arg2: real, span: int, ndiff: int)
    requires span > 0
    ensures Interpolated(arg1, arg2, span, ndiff) == StraightLine(arg1, arg2, span, ndiff)
            <==> span == 1 || ndiff == 0 || arg1 == arg2
  {
    var d, n, s := arg2 - arg1, ndiff as real, span as real;
    var x := d * n / s;
    assert d / s * n == x by { assert d / s * n * s == d * n; }
    ScaledBack(x, s);
    assert x == 0.0 <==> d * n == 0.0 by { assert x * s == d * n; }
    assert d * n == 0.0 <==> d == 0.0 || n == 0.0;
  }

  /** gos_convert_ruleop: "<" names the test "value above operand", and so on; an unknown
      operator counts as the first. */
  function ConvertOp(op: string): (n: nat)
    ensures n < 6
  {
    if op == "<" then 0 else if op == ">" then 1 else if op == "=" then 2
    else if op == "<=" then 3 else if op == ">=" then 4 else if op == "!=" then 5 else 0
  }

  /** gos_rop_gt, _lt, _eq, _gte, _lte, _neq, by their place in the function table */
  predicate Holds(e: Expression, value: real, ndiff: int, span: int)
    requires span > 0
  {
    var x := Interpolated(e.arg1, e.arg2, span, ndiff);
    match e.op
    case 0 => value > x
    case 1 => value < x
    case 2 => value == x
    case 3 => value >= x
    case 4 => value <= x
    case _ => value != x
  }

  /** The comparison that an operator text names. */
  predicate TextSays(op: string, left: real, right: real)
  {
    match op
    case "<" => left < right
    case ">" => left > right
    case "=" => left == right
    case "<=" => left <= right
    case ">=" => left >= right
    case _ => left != right
  }

  /** The text stands between the operand and the reading: "operand op reading". Read the other
      way round, as "reading op operand", it says what is tested exactly for equality and
      inequality, or when the reading equals the operand. */
  lemma OperatorExact(op: string, sensor: int, arg1: real, arg2: real, value: real, ndiff: int, span: int)
    requires op in {"<", ">", "=", "<=", ">=", "!="} && span > 0
    ensures var x := Interpolated(arg1, arg2, span, ndiff);
      var tested := Holds(Expression(ConvertOp(op), sensor, arg1, arg2), value, ndiff, span);
      && (tested <==> TextSays(op, x, value))
      && ((tested <==> TextSays(op, value, x)) <==> op == "=" || op == "!=" || value == x)
  {
    hide Interpolated;
  }

  function ExpressionOf(c: Condition): Expression { Expression(ConvertOp(c.op), c.sensor, c.arg1, c.arg2) }

  // --------------------------------------------------------------------- grouping

  /** One row of the grouping loop in gos_load_rules_exps: a row opens a new span only if
      both its bounds differ from those of the present one. */
  function Extend(g: seq<Span>, r: Condition, n: nat): seq<Span>
  {
    var cur := if g == [] then Span(-1, -1, 0, 0) else g[|g| - 1];
    if cur.from != r.from && cur.to != r.to then g + [Span(r.from, r.to, n, n + 1)]
    else if g == [] then g
    else g[..|g| - 1] + [cur.(end := cur.end + 1)]
  }

  /** The grouping loop after all the given rows. */
  function Group(rows: seq<Condition>): seq<Span>
  {
    if rows == [] then [] else Extend(Group(rows[..|rows| - 1]), rows[|rows| - 1], |rows| - 1)
  }

  ghost predicate TimesOfDay(rows: seq<Condition>)
  {
    forall k :: 0 <= k < |rows| ==> rows[k].from >= 0 && rows[k].to >= 0
  }

  /** `order by ftime, ttime` */
  ghost predicate Sorted(rows: seq<Condition>)
  {
    forall j, k :: 0 <= j < k < |rows| ==>
      rows[j].from < rows[k].from || (rows[j].from == rows[k].from && rows[j].to <= rows[k].to)
  }

  /** The spans cut 0..n into consecutive pieces, none of them empty. */
  ghost predicate Partition(spans: seq<Span>, n: nat)
  {
    && (forall j :: 0 <= j < |spans| ==> spans[j].start < spans[j].end)
    && (forall j :: 0 < j < |spans| ==> spans[j].start == spans[j - 1].end)
    && (if spans == [] then n == 0 else spans[0].start == 0 && spans[|spans| - 1].end == n)
  }

  /** Each span has the bounds of its first row, and each of its rows shares a bound. */
  ghost predicate BoundsShared(spans: seq<Span>, rows: seq<Condition>)
  {
    forall j :: 0 <= j < |spans| ==>
      && spans[j].start < spans[j].end <= |rows|
      && spans[j].from == rows[spans[j].start].from && spans[j].to == rows[spans[j].start].to
      && forall k :: spans[j].start <= k < spans[j].end ==> rows[k].from == spans[j].from || rows[k].to == spans[j].to
  }

  lemma ExtendPartitions(g: seq<Span>, r: Condition, n: nat)
    requires r.from >= 0 && r.to >= 0 && Partition(g, n)
    ensures Partition(Extend(g, r, n), n + 1)
  {}

  lemma ExtendShares(g: seq<Span>, rows: seq<Condition>, n: nat)
    requires n < |rows| && TimesOfDay(rows) && Partition(g, n) && BoundsShared(g, rows[..n])
    ensures BoundsShared(Extend(g, rows[n], n), rows[..n + 1])
  {
    var h, r, init, all := Extend(g, rows[n], n), rows[n], rows[..n], rows[..n + 1];
    assert forall k :: 0 <= k < n ==> all[k] == init[k];
    assert all[n] == r;
    if g != [] && !(g[|g| - 1].from != r.from && g[|g| - 1].to != r.to) {
      var top := g[|g| - 1];
      assert h == g[..|g| - 1] + [top.(end := n + 1)];
      forall k | top.start <= k < n + 1 ensures all[k].from == top.from || all[k].to == top.to {}
    }
  }

  /** Grouping partitions the expressions; rows of one span share its start or its end. */
  lemma {:induction false} GroupPartitions(rows: seq<Condition>)
    requires TimesOfDay(rows)
    ensures Partition(Group(rows), |rows|) && BoundsShared(Group(rows), rows)
  {
    hide BoundsShared, Partition;
    if rows == [] {
      NothingGrouped();
    } else {
      var n := |rows| - 1;
      GroupPartitions(rows[..n]);
      hide Extend;
      ExtendPartitions(Group(rows[..n]), rows[n], n);
      ExtendShares(Group(rows[..n]), rows, n);
      assert rows[..n + 1] == rows;
    }
  }

  lemma NothingGrouped()
    ensures Group([]) == [] && Partition([], 0) && BoundsShared([], [])
  {}

  /** The pairs `group by ftime, ttime` counts. */
  function Pairs(rows: seq<Condition>): set<(int, int)>
  {
    set k | 0 <= k < |rows| :: (rows[k].from, rows[k].to)
  }

  lemma {:induction false} RisingCount(spans: seq<Span>)
    requires forall i, j :: 0 <= i < j < |spans| ==> spans[i].from < spans[j].from
    ensures |set j | 0 <= j < |spans| :: (spans[j].from, spans[j].to)| == |spans|
  {
    if spans != [] {
      var n := |spans| - 1;
      RisingCount(spans[..n]);
      var a := set j | 0 <= j < n :: (spans[j].from, spans[j].to);
      assert a == set j | 0 <= j < |spans[..n]| :: (spans[..n][j].from, spans[..n][j].to);
      assert (set j | 0 <= j < |spans| :: (spans[j].from, spans[j].to)) == a + {(spans[n].from, spans[n].to)};
      assert (spans[n].from, spans[n].to) !in a;
    }
  }

  lemma {:induction false} SubsetCount<T>(a: set<T>, b: set<T>)
    requires a <= b
    ensures |a| <= |b|
  {
    if a != {} {
      var x :| x in a;
      SubsetCount(a - {x}, b - {x});
    }
  }

  ghost predicate Rising(spans: seq<Span>)
  {
    forall i, j :: 0 <= i < j < |spans| ==> spans[i].from < spans[j].from
  }

  lemma ExtendRises(g: seq<Span>, rows: seq<Condition>, n: nat)
    requires n < |rows| && Sorted(rows)
    requires Rising(g) && Partition(g, n) && BoundsShared(g, rows[..n])
    ensures Rising(Extend(g, rows[n], n))
  {
    if g != [] {
      var top := g[|g| - 1];
      assert rows[..n][top.start] == rows[top.start];
      assert top.from <= rows[n].from;
    }
  }

  lemma {:induction false} SpansRise(rows: seq<Condition>)
    requires TimesOfDay(rows) && Sorted(rows)
    ensures Rising(Group(rows))
  {
    hide Rising, Partition, BoundsShared, Extend;
    if rows == [] {
      NoneRising();
    } else {
      var n := |rows| - 1;
      SpansRise(rows[..n]);
      GroupPartitions(rows[..n]);
      ExtendRises(Group(rows[..n]), rows, n);
    }
  }

  lemma NoneRising()
    ensures Rising(Group([]))
  {}

  /** The loop never needs more spans than were allocated, one for each distinct pair. */
  lemma SpansFit(rows: seq<Condition>)
    requires TimesOfDay(rows) && Sorted(rows)
    ensures |Group(rows)| <= |Pairs(rows)|
  {
    GroupPartitions(rows);
    SpansRise(rows);
    var g := Group(rows);
    hide Group;
    RisingCount(g);
    var a := set j | 0 <= j < |g| :: (g[j].from, g[j].to);
    forall p | p in a ensures p in Pairs(rows) {
      var j :| 0 <= j < |g| && p == (g[j].from, g[j].to);
      assert p == (rows[g[j].start].from, rows[g[j].start].to);
    }
    SubsetCount(a, Pairs(rows));
  }

  /** Neighbouring rows with different bounds differ in both. */
  ghost predicate BoundsApart(rows: seq<Condition>)
  {
    forall k :: 0 < k < |rows| ==>
      (rows[k].from == rows[k - 1].from <==> rows[k].to == rows[k - 1].to)
  }

  /** Every row is tested in a span with exactly its own bounds. */
  ghost predicate OwnBounds(spans: seq<Span>, rows: seq<Condition>)
  {
    forall j, k :: 0 <= j < |spans| && spans[j].start <= k < spans[j].end && k < |rows| ==>
      rows[k].from == spans[j].from && rows[k].to == spans[j].to
  }

  lemma ExtendShrinks(g: seq<Span>, rows: seq<Condition>, n: nat)
    requires 0 < n < |rows| && Partition(g, n) && OwnBounds(Extend(g, rows[n], n), rows[..n + 1])
    ensures OwnBounds(g, rows[..n])
  {
    var h := Extend(g, rows[n], n);
    forall j, k | 0 <= j < |g| && g[j].start <= k < g[j].end && k < n
      ensures rows[..n][k].from == g[j].from && rows[..n][k].to == g[j].to
    {
      assert h[j].start == g[j].start && h[j].from == g[j].from && h[j].to == g[j].to && k < h[j].end;
      assert rows[..n + 1][k] == rows[..n][k];
    }
  }

  lemma ExtendOwn(g: seq<Span>, rows: seq<Condition>, n: nat)
    requires 0 < n < |rows| && Partition(g, n) && OwnBounds(g, rows[..n])
    ensures OwnBounds(Extend(g, rows[n], n), rows[..n + 1])
            <==> (rows[n].from == rows[n - 1].from <==> rows[n].to == rows[n - 1].to)
  {
    var h, r, all, last := Extend(g, rows[n], n), rows[n], rows[..n + 1], g[|g| - 1];
    assert rows[..n][n - 1] == rows[n - 1] && rows[n - 1].from == last.from && rows[n - 1].to == last.to;
    assert all[n] == r;
    var top := h[|h| - 1];
    assert top.start <= n < top.end;
    if r.from == top.from && r.to == top.to {
      forall j, k | 0 <= j < |h| && h[j].start <= k < h[j].end && k < n + 1
        ensures all[k].from == h[j].from && all[k].to == h[j].to
      {
        if j < |g| && k < n { assert rows[..n][k] == all[k]; assert g[j].start <= k < g[j].end; }
        else if j < |h| - 1 { Before(g, n, j); }
      }
    }
  }

  /** Every span but the last ends before the last row. */
  lemma Before(g: seq<Span>, n: nat, j: nat)
    requires Partition(g, n) && j < |g|
    ensures g[j].end <= n
    decreases |g| - j
  {
    if j + 1 < |g| { Before(g, n, j + 1); }
  }

  /** The grouping keeps the rows' own time spans exactly when no two neighbouring rows of
      the sorted table share only one bound; otherwise the later row is merged away. */
  lemma {:induction false} MergeExact(rows: seq<Condition>)
    requires TimesOfDay(rows)
    ensures OwnBounds(Group(rows), rows) <==> BoundsApart(rows)
  {
    if |rows| <= 1 {
      FewRows(rows);
    } else {
      var n := |rows| - 1;
      var g := Group(rows[..n]);
      MergeExact(rows[..n]);
      GroupPartitions(rows[..n]);
      ApartGrows(rows);
      assert rows[..n + 1] == rows;
      hide OwnBounds, BoundsApart, Partition, BoundsShared, Extend, TimesOfDay;
      if OwnBounds(g, rows[..n]) { ExtendOwn(g, rows, n); }
      else if OwnBounds(Group(rows), rows) { ExtendShrinks(g, rows, n); }
    }
  }

  lemma FewRows(rows: seq<Condition>)
    requires |rows| <= 1 && TimesOfDay(rows)
    ensures OwnBounds(Group(rows), rows) && BoundsApart(rows)
  {
    if rows != [] { assert Group(rows) == [Span(rows[0].from, rows[0].to, 0, 1)]; }
  }

  lemma ApartGrows(rows: seq<Condition>)
    requires |rows| > 1
    ensures var n := |rows| - 1;
      BoundsApart(rows) <==> BoundsApart(rows[..n]) && (rows[n].from == rows[n - 1].from <==> rows[n].to == rows[n - 1].to)
  {}

  // ---------------------------------------------------------------------- actions

  /** `order by istrue asc` */
  ghost predicate ActionsSorted(acts: seq<Action>)
  {
    forall j, k :: 0 <= j < k < |acts| ==> acts[j].istrue <= acts[k].istrue
  }

  /** gos_load_rules_acts: the index of the first action for the satisfied case, or -1. */
  function ActsIndex(acts: seq<Action>): (r: int)
    ensures -1 <= r < |acts|
  {
    if acts == [] then -1
    else
      var r := ActsIndex(acts[..|acts| - 1]);
      if r < 0 && acts[|acts| - 1].istrue > 0 then |acts| - 1 else r
  }

  function TrueActions(acts: seq<Action>): seq<Action>
  {
    if acts == [] then [] else (if acts[0].istrue > 0 then [acts[0]] else []) + TrueActions(acts[1..])
  }

  function FalseActions(acts: seq<Action>): seq<Action>
  {
    if acts == [] then [] else (if acts[0].istrue > 0 then [] else [acts[0]]) + FalseActions(acts[1..])
  }

  /** gos_execute_action on `num` actions starting `offset` places into the table: the
      actions it inserts, or None if it reads outside the table. */
  function Executed(acts: seq<Action>, offset: int, num: int): Option<seq<Action>>
  {
    if num <= 0 then Some([])
    else if 0 <= offset && offset + num <= |acts| then Some(acts[offset..offset + num])
    else None
  }

  /** A call of gos_execute_action: where in the table it starts, and how many actions. */
  datatype Call = Call(offset: int, num: int)

  /** The two calls in gos_evaluate_rules. */
  function CallFor(acts: seq<Action>, satisfied: bool): Call
  {
    var i := ActsIndex(acts);
    if satisfied then Call(i, |acts| - i) else Call(0, i)
  }

  function Branch(acts: seq<Action>, satisfied: bool): Option<seq<Action>>
  {
    var c := CallFor(acts, satisfied);
    Executed(acts, c.offset, c.num)
  }

  ghost predicate SomeTrue(acts: seq<Action>)
  {
    exists k :: 0 <= k < |acts| && acts[k].istrue > 0
  }

  lemma {:induction false} IndexIsFirst(acts: seq<Action>)
    ensures ActsIndex(acts) >= 0 <==> SomeTrue(acts)
    ensures ActsIndex(acts) >= 0 ==> acts[ActsIndex(acts)].istrue > 0
    ensures forall k :: 0 <= k < |acts| && k < ActsIndex(acts) ==> acts[k].istrue <= 0
  {
    if acts != [] {
      var n := |acts| - 1;
      var init := acts[..n];
      IndexIsFirst(init);
      if SomeTrue(init) {
        var k :| 0 <= k < n && init[k].istrue > 0;
        assert acts[k].istrue > 0;
      }
      forall k | 0 <= k < n ensures acts[k] == init[k] {}
    }
  }

  lemma {:induction false} AllTrue(acts: seq<Action>)
    requires forall k :: 0 <= k < |acts| ==> acts[k].istrue > 0
    ensures FalseActions(acts) == [] && TrueActions(acts) == acts
  {
    if acts != [] {
      AllTrue(acts[1..]);
      assert acts == [acts[0]] + acts[1..];
    }
  }

  lemma {:induction false} SplitActions(acts: seq<Action>, i: nat)
    requires i <= |acts|
    requires forall k :: 0 <= k < i ==> acts[k].istrue <= 0
    requires forall k :: i <= k < |acts| ==> acts[k].istrue > 0
    ensures FalseActions(acts) == acts[..i] && TrueActions(acts) == acts[i..]
  {
    if i == 0 {
      AllTrue(acts);
    } else {
      var rest := acts[1..];
      SplitActions(rest, i - 1);
      assert acts[..i] == [acts[0]] + rest[..i - 1];
      assert acts[i..] == rest[i - 1..];
    }
  }

  /** A satisfied span executes the true actions, and just those, exactly when there is one;
      otherwise it reads from before the table. An unsatisfied span executes the false
      actions, and just those, unless the rule has false actions only: then it executes
      none. */
  lemma BranchesExact(acts: seq<Action>)
    requires ActionsSorted(acts)
    ensures if SomeTrue(acts) then Branch(acts, true) == Some(TrueActions(acts)) else Branch(acts, true) == None
    ensures Branch(acts, false) == Some(FalseActions(acts)) <==> SomeTrue(acts) || acts == []
  {
    var i := ActsIndex(acts);
    IndexIsFirst(acts);
    hide ActsIndex, TrueActions, FalseActions;
    if SomeTrue(acts) {
      SplitActions(acts, i);
      assert acts[i..i + (|acts| - i)] == acts[i..];
    } else {
      SplitActions(acts, |acts|);
    }
  }

  /** Whichever branch is taken, nothing of the other kind is ever executed. */
  lemma BranchesPure(acts: seq<Action>, satisfied: bool)
    requires ActionsSorted(acts) && Branch(acts, satisfied).Some?
    ensures forall k :: 0 <= k < |Branch(acts, satisfied).value| ==> (Branch(acts, satisfied).value[k].istrue > 0 <==> satisfied)
  {
    IndexIsFirst(acts);
  }
}
