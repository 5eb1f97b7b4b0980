/** Literal inputs at which the numeric, rule and transmission code does not do what its names
    and comments say. The general statements are with the code they are about. */
module Literals {
  import opened Basics
  import opened Calibration
  import opened CalibrationConfig
  import opened Rules
  import opened RuleRuns
  import opened UartQueues
  import Words
  import R = Relays
  import U = Uart

  /** Half way from 0 to 4 in a span of two seconds the operand is 1. */
  lemma HalfWay()
    ensures Interpolated(0.0, 4.0, 2, 1) == 1.0 && StraightLine(0.0, 4.0, 2, 1) == 2.0
  {
  }

  /** "<" with the operand 10 does not hold for the reading 5, and holds for 15: 10 < 15. */
  lemma LessThan()
    ensures var e := Expression(ConvertOp("<"), 1, 10.0, 10.0);
      && TextSays("<", 5.0, 10.0) && !Holds(e, 5.0, 0, 60)
      && !TextSays("<", 15.0, 10.0) && Holds(e, 15.0, 0, 60)
  {
  }

  /** Two conditions from second 0, until 10 and until 20: the second is tested until 10. */
  lemma MergedAway(r: Condition, s: Condition)
    requires r.from == s.from == 0 && r.to == 10 && s.to == 20
    ensures TimesOfDay([r, s]) && Sorted([r, s]) && Group([r, s]) == [Span(0, 10, 0, 2)]
    ensures !OwnBounds(Group([r, s]), [r, s])
  {
    var rows := [r, s];
    assert rows[..1] == [r] && [r][..0] == [];
    assert Group([r]) == [Span(0, 10, 0, 1)];
    assert rows[1].to != Group(rows)[0].to;
  }

  /** A rule with one false action: satisfied, it reads before its table; not satisfied, it
      executes nothing. */
  lemma FalseOnly(a: Action)
    requires a.istrue == 0
    ensures ActionsSorted([a]) && Branch([a], true) == None && Branch([a], false) == Some([])
    ensures FalseActions([a]) == [a]
  {
    assert [a][..0] == [];
    assert FalseActions([a]) == [a] + FalseActions([]);
  }

  const ALWAYS := Rule([Span(0, 100, 0, 1)], [Expression(0, 1, 0.0, 0.0)], [], 0)

  /** Two rules whose condition holds: the match of the first does not stop the second. */
  lemma BothAct()
    ensures var rules := [Live(ALWAYS, [1], 0), Live(ALWAYS, [1], 0)];
      Fires(ALWAYS, [1], 50, 0) && Evaluate(rules, 50, 2).0[0] == Evaluate(rules, 50, 2).0[1] == [0]
  {
    var rules := [Live(ALWAYS, [1], 0), Live(ALWAYS, [1], 0)];
    assert [1][0..1] == [1] && [1][..0] == [];
    assert Sum([1]) == 1;
    assert Matched(ALWAYS.spans[0], [1]);
    hide Sum, Matched;
    assert VisitFrom(ALWAYS, [1], 50, false, 0) == Visits([0], true);
    assert VisitFrom(ALWAYS, [1], 50, true, 0) == Visits([0], true);
    assert Visited(rules[0], 50, false) == Visited(rules[1], 50, true) == Visits([0], true);
    assert Evaluate(rules, 50, 0) == ([], false);
    assert Evaluate(rules, 50, 1).0[0] == [0] && Evaluate(rules, 50, 1).1;
  }

  /** A rule for the first hundred seconds of the day with a period of a hundred seconds never
      acts at all. */
  lemma NeverActs(rules: seq<Rule>, i: nat)
    requires i < |rules| && rules[i] == ALWAYS.(period := 100)
    ensures forall more :: !ActsLater(rules, [], more, i)
  {
    assert RuleRuns.After(rules, [])[i].lastexec == 0;
    forall more ensures !ActsLater(rules, [], more, i) {
      if ActsLater(rules, [], more, i) {
        NeverAgain(rules, [], more, i);
        assert false;
      }
    }
  }

  /** The knots 1 and 2 with an empty field between them: the reading 0 is converted. */
  lemma ZeroIsCovered(kind: Kind, s: string, atof: string -> real, offset: real)
    requires (kind == Linear || kind == TableMap) && s == "1:5,,2:6" && atof("1") == 1.0 && atof("2") == 2.0
    ensures KnotsOf(Tokens(s, 0), atof) == Some([Knot(1.0, atof("5")), Knot(2.0, atof("6"))])
    ensures Generate(kind, s, atof).Some? && Convert(kind, Generate(kind, s, atof).value, offset, 0).Some?
  {
    TokensOfExample(s);
    KnotsOfExample("1:5", "2:6", atof);
    ZeroBetween(kind, s, atof, offset);
    hide Tokens, KnotsOf, Generate, Fields, Convert;
  }

  lemma ZeroBetween(kind: Kind, s: string, atof: string -> real, offset: real)
    requires (kind == Linear || kind == TableMap) && |Tokens(s, 0)| == 2 && "" in Fields(s, 0)
    requires KnotsOf(Tokens(s, 0), atof).Some? && Increasing(KnotsOf(Tokens(s, 0), atof).value)
    ensures Generate(kind, s, atof).Some? && Convert(kind, Generate(kind, s, atof).value, offset, 0).Some?
  {
    GeneratesExample(kind, s, atof);
    hide Tokens, KnotsOf, Generate, Fields, Convert, Increasing;
    ConfiguredRange(kind, s, atof, offset, 0);
  }

  lemma GeneratesExample(kind: Kind, s: string, atof: string -> real)
    requires |Tokens(s, 0)| == 2 && KnotsOf(Tokens(s, 0), atof).Some?
    ensures Generate(kind, s, atof).Some?
  {
    hide Tokens, KnotsOf, Segments, Commas;
  }

  lemma TokensOfExample(s: string)
    requires s == "1:5,,2:6"
    ensures Tokens(s, 0) == ["1:5", "2:6"] && "" in Fields(s, 0)
  {
    assert FieldEnd(s, 0) == FieldEnd(s, 1) == FieldEnd(s, 2) == FieldEnd(s, 3) == 3;
    assert FieldEnd(s, 4) == 4;
    assert FieldEnd(s, 5) == FieldEnd(s, 6) == FieldEnd(s, 7) == FieldEnd(s, 8) == 8;
    hide FieldEnd;
    assert s[0..3] == "1:5" && s[4..4] == "" && s[5..8] == s[5..] == "2:6";
    assert Token(s, 0) == (0, 3) && Token(s, 4) == Token(s, 5) == (5, 8) && Token(s, 8) == (8, 8);
    var none: seq<string> := [];
    assert Tokens(s, 8) == none;
    assert Tokens(s, 4) == [s[5..8]] + none;
    assert Tokens(s, 0) == [s[0..3]] + Tokens(s, 4);
    assert Fields(s, 4) == [s[4..4]] + Fields(s, 5);
    assert Fields(s, 0) == [s[0..3]] + Fields(s, 4);
    assert Fields(s, 4)[0] == "" && Fields(s, 0)[1] == "";
  }

  lemma KnotsOfExample(s: string, t: string, atof: string -> real)
    requires s == "1:5" && t == "2:6"
    ensures KnotsOf([s, t], atof) == Some([Knot(atof("1"), atof("5")), Knot(atof("2"), atof("6"))])
  {
    var j, k := Knot(atof("1"), atof("5")), Knot(atof("2"), atof("6"));
    assert Colon(s) == 1 && Colon(t) == 1;
    assert s[..1] == "1" && s[2..] == "5" && t[..1] == "2" && t[2..] == "6";
    assert KnotOf(s, atof) == Some(j) && KnotOf(t, atof) == Some(k);
    var none: seq<string> := [];
    OneMoreKnot(none, s, atof);
    OneMoreKnot([s], t, atof);
    assert none + [s] == [s] && [s] + [t] == [s, t];
    assert KnotsOf(none, atof) == Some([]);
    assert KnotsOf([s], atof) == Some([] + [j]);
    assert [] + [j] == [j] && [j] + [k] == [j, k];
  }

  /** Two single bytes written one after the other, before the hardware has sent the first:
      only the second is left. */
  method OverwrittenByte() returns (t: Transmitter)
    ensures fresh(t) && t.Valid() && t.Stream() == [2]
  {
    t := new Transmitter();
    var n := t.Write([1]);
    var m := t.Write([2]);
  }

  /** With the first byte sent out in between, both are there. */
  method SpacedBytes() returns (t: Transmitter)
    ensures fresh(t) && t.Valid() && t.Stream() == [1, 2]
  {
    t := new Transmitter();
    var n := t.Write([1]);
    t.SendOut();
    var m := t.Write([2]);
  }

  lemma RelayKept(c: R.Config, f: R.Field, id: int, running: int, stop: int)
    requires R.Safe(c, f) && R.Target(c, id, running) >= 0
    requires Words.ParseArgument(running).1 > 0 && Words.ParseArgument(stop).1 == 0 && stop % 0x1_0000 == stop
    requires Words.ParseArgument(stop).0 != Words.ParseArgument(running).0
    ensures R.WellLaid(c, R.Command(c, f, id, running))
    ensures R.On(c, R.Command(c, R.Command(c, f, id, running), id, stop), R.Target(c, id, running))
  {
    hide R.Command, R.Target, R.On, Words.ParseArgument;
    R.CommandEffect(c, f, id, running);
    R.StopReachesRelay(c, R.Command(c, f, id, running), id, running, stop);
  }

  /** Opened for ten seconds and then stopped with the word of the other direction, the relay
      stays closed. */
  lemma StopMisses(c: R.Config, f: R.Field, id: int, running: int, stop: int)
    requires running == 4106 && stop == 8192 && R.Safe(c, f) && R.Target(c, id, running) >= 0
    ensures Words.ParseArgument(running) == (1, 10) && Words.ParseArgument(stop) == (2, 0)
    ensures R.WellLaid(c, R.Command(c, f, id, running))
    ensures R.On(c, R.Command(c, R.Command(c, f, id, running), id, stop), R.Target(c, id, running))
  {
    WordsOfExample(running, stop);
    hide R.Command, R.Target, R.On, R.Safe, R.WellLaid, Words.ParseArgument;
    RelayKept(c, f, id, running, stop);
  }

  lemma WordsOfExample(running: int, stop: int)
    requires running == 4106 && stop == 8192
    ensures Words.ParseArgument(running) == (1, 10) && Words.ParseArgument(stop) == (2, 0) && stop % 0x1_0000 == stop
  {
  }

  /** A packet byte by byte: header, id and data low byte first, and the sum of id and data. */
  lemma PacketBytes()
    ensures var w := U.Encode(0xaa55, U.Message(0x0203, 0x0001, 0xfffe, 0x0004, 0));
      w == [0x55, 0xaa, 0x03, 0x02, 0x01, 0x00, 0xfe, 0xff, 0x04, 0x00, 0x00, 0x00, 0x06, 0x02] && U.Accepts(w)
  {
    U.EncodeDecode(0xaa55, U.Message(0x0203, 0x0001, 0xfffe, 0x0004, 0));
    hide U.Accepts;
  }
}
