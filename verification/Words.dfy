/** Machine-word arithmetic shared by the models: the bitwise OR and the 32-bit
    wrap of C `int`, and the 4-bit / 12-bit split of an actuator word. */
module Words {

  const ARG_BIT := 12            // _GOS_ACTARG_BIT
  const TIME_FILTER := 0xFFF     // _GOS_ACTARG_TIMEFILTER

  function Abs(x: int): nat { if x < 0 then -x else x }

  /** Two's-complement bitwise OR of two integers of any size. */
  function BitOr(a: int, b: int): int
    decreases Abs(a) + Abs(b)
  {
    if a == 0 then b
    else if b == 0 then a
    else if a == -1 || b == -1 then -1
    else 2 * BitOr(a / 2, b / 2) + (if a % 2 == 1 || b % 2 == 1 then 1 else 0)
  }

  /** The value a C `int` keeps of an integer that may not fit. */
  function Wrap32(x: int): int
  {
    (x + 0x8000_0000) % 0x1_0000_0000 - 0x8000_0000
  }

  function Pow2(k: nat): (p: nat)
    ensures p > 0
  {
    if k == 0 then 1 else 2 * Pow2(k - 1)
  }

  /** `arg << 12 | worktime` */
  function PackArgument(arg: int, worktime: int): int
  {
    Wrap32(BitOr(arg * Pow2(ARG_BIT), worktime))
  }

  /** `((raw & 0xF000) >> 12, raw & 0xFFF)`: floor division and Euclidean remainder
      are what masking does to a two's-complement number, negative ones included. */
  function ParseArgument(raw: int): (int, int)
  {
    ((raw / 4096) % 16, raw % 4096)
  }

  /** OR joins a shifted number and a number below the shift without carries. */
  lemma {:induction false} OrOfDisjointBits(a: int, b: nat, k: nat)
    requires b < Pow2(k)
    ensures BitOr(a * Pow2(k), b) == a * Pow2(k) + b
  {
    if k > 0 && a != 0 && b != 0 {
      var x := a * Pow2(k);
      OrOfDisjointBits(a, b / 2, k - 1);
      HalfOfShifted(a, k);
    }
  }

  lemma HalfOfShifted(a: int, k: nat)
    requires k > 0 && a != 0
    ensures var x := a * Pow2(k); x % 2 == 0 && x / 2 == a * Pow2(k - 1) && x != 0
  {
    var p := Pow2(k - 1);
    Doubled(a, p);
    hide Pow2;
    assert Pow2(k) == 2 * p by { TwoPowers(k); }
  }

  lemma TwoPowers(k: nat)
    requires k > 0
    ensures Pow2(k) == 2 * Pow2(k - 1)
  {
  }

  lemma Doubled(a: int, p: nat)
    requires a != 0 && p > 0
    ensures a * (2 * p) == 2 * (a * p) && a * p != 0
  {
  }

  /** On fields that fit, packing is plain addition. */
  lemma PackOfFields(arg: int, worktime: int)
    requires 0 <= arg < 16 && 0 <= worktime <= TIME_FILTER
    ensures PackArgument(arg, worktime) == arg * 4096 + worktime
  {
    hide BitOr, Pow2;
    FieldShift();
    OrOfDisjointBits(arg, worktime, ARG_BIT);
  }

  lemma FieldShift()
    ensures Pow2(ARG_BIT) == 4096
  {
    assert Pow2(6) == 64;
    assert Pow2(9) == 512;
  }

  /** An actuator word decodes to the two fields it was built from exactly when
      the fields fit their 4 and 12 bits. */
  lemma PackThenParse(arg: int, worktime: int)
    ensures ParseArgument(PackArgument(arg, worktime)) == (arg, worktime)
            <==> 0 <= arg < 16 && 0 <= worktime <= TIME_FILTER
  {
    hide PackArgument;
    var w := PackArgument(arg, worktime);
    if 0 <= arg < 16 && 0 <= worktime <= TIME_FILTER {
      PackOfFields(arg, worktime);
    } else {
      ParseRange(w);
    }
  }

  lemma ParseRange(w: int)
    ensures 0 <= ParseArgument(w).0 < 16 && 0 <= ParseArgument(w).1 <= TIME_FILTER
  {
  }

  /** The node receives the word as 16 bits; its masks read the same two fields. */
  lemma NodeReadsSameFields(ctrlarg: int)
    ensures ParseArgument(ctrlarg % 0x1_0000) == ParseArgument(ctrlarg)
  {
    var q, w := ctrlarg / 65536, ctrlarg % 65536;
    assert ctrlarg / 4096 == 16 * q + w / 4096;
  }
}
