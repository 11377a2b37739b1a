/**
 Conversion of an absolute counter deadline to a relative timeout in milliseconds.
 */
module Deadlines {
  import opened Results
  import opened Arithmetic
  import L = CodeLayout
  import W = CodeWords
  import opened Isa

  const MAX_TIMEOUT: int := 0x7FFF_FFFF
  const MILLISECONDS_PER_SECOND: int := 1000
  const NO_DEADLINE: int := 0xFFFF_FFFF_FFFF_FFFF
  const FURTHEST: int := 0x7FFF_FFFF_FFFF_FFFF

  // ---------------------------------------------------------------- the specification

  /// How far the counter is from the deadline, modulo its wrap.
  function Distance(deadline: Word64, now: Word64): Word64 {
    (deadline - now) % M64
  }

  /// Rounded up, so that waiting that long does not end early.
  function CeilingDivide(x: nat, y: nat): nat
    requires y > 0
  {
    (x + (y - 1)) / y
  }

  predicate Future(distance: Word64) {
    1 <= distance <= FURTHEST
  }

  predicate ValidFrequency(frequency: Word64) {
    1 <= frequency <= NO_DEADLINE / MILLISECONDS_PER_SECOND
  }

  /// `None` stands for a trap.
  function Timeout(deadline: Word64, now: Word64, frequency: Word64): Option<Word64> {
    if deadline == NO_DEADLINE then Some(NO_DEADLINE)
    else if !Future(Distance(deadline, now)) then Some(0)
    else if !ValidFrequency(frequency) then None
    else
      var exact := CeilingDivide(MILLISECONDS_PER_SECOND * Distance(deadline, now), frequency);
      Some(if exact > MAX_TIMEOUT then MAX_TIMEOUT else exact)
  }

  /// MAIN RESULT. An uncapped timeout never ends before the deadline, and ends less than a
  /// millisecond late.
  lemma TimeoutNeverFiresEarly(deadline: Word64, now: Word64, frequency: Word64)
    requires deadline != NO_DEADLINE && Timeout(deadline, now, frequency).Some?
    ensures var t, d := Timeout(deadline, now, frequency).value, Distance(deadline, now);
            && (t == 0 <==> !Future(d))
            && (0 < t < MAX_TIMEOUT ==>
                  t * frequency >= MILLISECONDS_PER_SECOND * d > (t - 1) * frequency)
            && t <= 0x7FFF_FFFF && (t == 0x7FFF_FFFF ==> 1000 * d > (t - 1) * frequency)
  {
    var d := Distance(deadline, now);
    if Future(d) {
      var x := MILLISECONDS_PER_SECOND * d;
      CeilingBounds(x, frequency);
      var c, t := CeilingDivide(x, frequency), Timeout(deadline, now, frequency).value;
      ProductIsMonotone(t - 1, c - 1, frequency);
      assert frequency * (t - 1) == (t - 1) * frequency && frequency * (c - 1) == (c - 1) * frequency;
    }
  }

  /// A deadline counts as future when it lies ahead of the counter by less than half of the counter's
  /// period, and as passed when it lies behind it by up to half a period or is reached at this moment.
  lemma FutureIsTheHalfAhead(now: Word64, ahead: int)
    requires -0x8000_0000_0000_0000 <= ahead < 0x8000_0000_0000_0000
    ensures Future(Distance((now + ahead) % M64, now)) <==> ahead > 0
  {
    var deadline := (now + ahead) % M64;
    var wraps := if now + ahead < 0 then -1 else if now + ahead < M64 then 0 else 1;
    DivisionIsUnique(now + ahead, M64, wraps, now + ahead - wraps * M64);
    var distance := if ahead < 0 then ahead + M64 else ahead;
    DivisionIsUnique(deadline - now, M64, if deadline - now < 0 then -1 else 0, distance);
  }

  /// A frequency is valid when it counts, and a remainder below it can be taken to milliseconds within a word.
  lemma ValidFrequencyFits(frequency: Word64)
    ensures ValidFrequency(frequency) <==> frequency > 0 && 1000 * frequency < M64
  {
  }

  lemma CeilingBounds(x: nat, y: nat)
    requires y > 0
    ensures var c := CeilingDivide(x, y); c * y >= x > (c - 1) * y && (x > 0 ==> c > 0)
  {
    var s := x + (y - 1);
    QuotientAndRemainder(s, y);
    var c := s / y;
    assert y * c == c * y && (c - 1) * y == c * y - y;
    if c <= 0 { assert c * y <= 0; }
  }

  /// The emitted steps: whole seconds, then the rest, then one more for a remainder.
  lemma CeilingInSteps(d: nat, f: nat)
    requires 0 < f
    ensures var q, r := d / f, d % f;
            var sub, left := 1000 * r / f, 1000 * r % f;
            && CeilingDivide(1000 * d, f) == 1000 * q + sub + (if left != 0 then 1 else 0)
            && 0 <= sub < 1000 && 0 <= left < f && 0 <= r < f && q >= 0 && d == f * q + r
            && 1000 * r == f * sub + left
  {
    QuotientAndRemainder(d, f);
    var q, r := d / f, d % f;
    QuotientAndRemainder(1000 * r, f);
    StepsAddUp(d, f, q, r, 1000 * r / f, 1000 * r % f);
  }

  lemma StepsAddUp(d: nat, f: nat, q: int, r: int, sub: int, left: int)
    requires f > 0 && d == f * q + r && 0 <= r < f && 1000 * r == f * sub + left && 0 <= left < f
    ensures CeilingDivide(1000 * d, f) == 1000 * q + sub + (if left != 0 then 1 else 0)
    ensures 0 <= sub < 1000 && q >= 0
  {
    FactorIsBounded(f, q, r);
    FactorIsBounded(f, sub, left);
    if sub >= 1000 { ProductIsMonotone(1000, sub, f); }
    var whole := 1000 * q + sub;
    assert f * whole == 1000 * (f * q) + f * sub;
    CeilingOf(1000 * d, f, whole, left);
  }

  lemma FactorIsBounded(f: nat, q: int, r: int)
    requires f > 0 && r < f && f * q + r >= 0
    ensures q >= 0
  {
    assert f * -q == -(f * q);
    if q <= -1 { ProductIsMonotone(1, -q, f); }
  }

  lemma CeilingOf(x: nat, y: nat, q: nat, r: nat)
    requires y > 0 && x == y * q + r && r < y
    ensures CeilingDivide(x, y) == q + if r != 0 then 1 else 0
  {
    if r == 0 {
      DivisionIsUnique(x + (y - 1), y, q, y - 1);
    } else {
      assert y * (q + 1) == y * q + y;
      DivisionIsUnique(x + (y - 1), y, q + 1, r - 1);
    }
  }

  // ---------------------------------------------------------------- the emitted sequence

  /// Register arithmetic: every result is taken modulo 2^64.
  function Subtract64(x: Word64, y: Word64): Word64 {
    (x - y) % M64
  }

  function Add64(x: Word64, y: Word64): Word64 {
    (x + y) % M64
  }

  function Multiply64(x: Word64, y: Word64): Word64 {
    x * y % M64
  }

  function MultiplySubtract64(x: Word64, y: Word64, addend: Word64): Word64 {
    (addend - x * y) % M64
  }

  function Divide64(x: Word64, y: Word64): Word64 {
    QuotientIsWord(x, y);
    if y == 0 then 0 else x / y
  }

  lemma QuotientIsWord(x: Word64, y: Word64)
    ensures y != 0 ==> 0 <= x / y <= x
  {
    if y != 0 {
      QuotientAndRemainder(x, y);
      var q := x / y;
      FactorIsBounded(y, q, x % y);
      ProductIsMonotone(1, y, q);
    }
  }

  /// The emitted instructions, one assignment each. Registers are named as in the source.
  method ConvertDeadline(deadline: Word64, counter: Word64, counterFrequency: Word64) returns (trap: bool, output: Word64)
    ensures trap <==> Timeout(deadline, counter, counterFrequency).None?
    ensures !trap ==> Timeout(deadline, counter, counterFrequency) == Some(output)
  {
    trap, output := false, 0;
    if deadline == NO_DEADLINE { return false, NO_DEADLINE; }
    var x4: Word64 := counter;
    x4 := Subtract64(deadline, x4);
    if x4 == 0 { return false, 0; }
    if x4 > FURTHEST { return false, 0; }
    var x5: Word64 := counterFrequency;
    if x5 == 0 { return true, 0; }
    if x5 > NO_DEADLINE / MILLISECONDS_PER_SECOND { return true, 0; }
    output := ConvertFinite(x4, x5);
  }

  /// Whole seconds first, so that no intermediate product leaves 64 bits.
  method ConvertFinite(x4: Word64, x5: Word64) returns (output: Word64)
    requires ValidFrequency(x5)
    ensures var exact := CeilingDivide(MILLISECONDS_PER_SECOND * x4, x5);
            output == if exact > MAX_TIMEOUT then MAX_TIMEOUT else exact
  {
    CeilingInSteps(x4, x5);
    hide *;
    var x6, x7 := Split(x4, x5);
    if x6 > MAX_TIMEOUT / MILLISECONDS_PER_SECOND { return MAX_TIMEOUT; }
    var x16: Word64 := MILLISECONDS_PER_SECOND;
    output := Product(x6, x16);
    x7 := Product(x7, x16);
    var x17;
    x16, x17 := Split(x7, x5);
    output := Sum(output, x16);
    if x17 != 0 { output := Sum(output, 1); }
    if output > MAX_TIMEOUT { return MAX_TIMEOUT; }
  }

  /// An unsigned division, and a multiply-subtract for its remainder.
  method Split(x: Word64, y: Word64) returns (quotient: Word64, remainder: Word64)
    requires y > 0
    ensures quotient == x / y && remainder == x % y
  {
    quotient := Divide64(x, y);
    remainder := MultiplySubtract64(quotient, y, x);
    QuotientAndRemainder(x, y);
    assert y * quotient == quotient * y;
    StaysInWord(x - quotient * y, x % y);
  }

  method Product(x: Word64, y: Word64) returns (r: Word64)
    ensures x * y < M64 ==> r == x * y
  {
    r := Multiply64(x, y);
    if x * y < M64 {
      assert 0 <= x * y;
      StaysInWord(x * y, x * y);
    }
  }

  method Sum(x: Word64, y: Word64) returns (r: Word64)
    ensures x + y < M64 ==> r == x + y
  {
    r := Add64(x, y);
  }

  lemma StaysInWord(x: int, y: int)
    requires x == y && 0 <= y < M64
    ensures x % M64 == y
  {
    DivisionIsUnique(x, M64, 0, y);
  }
}
