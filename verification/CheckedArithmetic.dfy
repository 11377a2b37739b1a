/**
 Checked integer operations: every emitted sequence traps exactly when its mathematical result cannot
 be represented, and otherwise leaves the result in its destination.
 */
module CheckedArithmetic {
  import opened Arithmetic
  import L = CodeLayout
  import W = CodeWords
  import opened Isa

  datatype Kind = Kind(signed: bool, bits: nat)

  /// A width of at most 32 in 32-bit registers, or 64 in 64-bit registers.
  predicate Supported(k: Kind, size: DataSize) {
    if size.Bits32? then 1 <= k.bits <= 32 else k.bits == 64
  }

  function Minimum(k: Kind): int {
    if k.signed && k.bits > 0 then -(Pow2(k.bits - 1) as int) else 0
  }

  function Maximum(k: Kind): int {
    if k.signed && k.bits > 0 then Pow2(k.bits - 1) - 1 else Pow2(k.bits) - 1
  }

  predicate InRange(k: Kind, v: int) {
    Minimum(k) <= v <= Maximum(k)
  }

  /// The number a register stands for.
  function ValueOf(s: State, r: nat, size: DataSize, k: Kind): int {
    Read(s, r, size, k.signed)
  }

  predicate Normalized(s: State, r: nat, size: DataSize, k: Kind) {
    InRange(k, ValueOf(s, r, size, k))
  }

  /// The value that a result wraps to when it is not checked.
  function Wrapped(k: Kind, v: int): int {
    Extend(v, k.bits, k.signed)
  }

  const SCRATCH: nat := 15
  const QUOTIENT: nat := 0

  predicate Ordinary(r: nat) {
    r != SCRATCH && r != ZERO_REGISTER
  }

  /// At most two registers differ.
  ghost predicate Others(s: State, t: State, a: nat, b: nat) {
    forall r: nat | r != a && r != b :: Reg(t, r) == Reg(s, r)
  }

  // ---------------------------------------------------------------- readings of patterns

  predicate Fits(size: DataSize, signed: bool, v: int) {
    if signed then -(Modulus(size) / 2) <= v < Modulus(size) / 2 else 0 <= v < Modulus(size)
  }

  function Reading(x: int, size: DataSize, signed: bool): int {
    if signed then Signed(x, size) else x
  }

  lemma ReadingIsCongruent(x: int, size: DataSize, signed: bool)
    ensures Congruent(Reading(x, size, signed), x, Modulus(size)) && Congruent(x, Reading(x, size, signed), Modulus(size))
  {
    var m := Modulus(size);
    CongruentBy(x, x, m, 0);
    CongruentBy(x - m, x, m, -1);
    CongruentBy(x, x - m, m, 1);
  }

  lemma ReadingFits(x: int, size: DataSize, signed: bool)
    requires 0 <= x < Modulus(size)
    ensures Fits(size, signed, Reading(x, size, signed))
  {
  }

  /// A pattern that is congruent to a number that fits reads as that number.
  lemma ReadingIsUnique(x: int, v: int, size: DataSize, signed: bool)
    requires 0 <= x < Modulus(size) && Fits(size, signed, v) && Congruent(x, v, Modulus(size))
    ensures Reading(x, size, signed) == v
  {
    ReadingIsCongruent(x, size, signed);
    ReadingFits(x, size, signed);
    CongruentTransitive(Reading(x, size, signed), x, v, Modulus(size));
    CongruentAndClose(Reading(x, size, signed), v, Modulus(size));
  }

  lemma WrittenReads(s: State, d: nat, size: DataSize, value: int, v: int, signed: bool)
    requires d != ZERO_REGISTER && Fits(size, signed, v) && Congruent(value, v, Modulus(size))
    ensures Read(Put(s, d, size, value), d, size, signed) == v
  {
    var m := Modulus(size);
    RemainderIsCongruent(value, m);
    CongruentTransitive(Low(value, size), value, v, m);
    DivisionIsUnique(Low(value, size), m, 0, Low(value, size));
    assert Source(Put(s, d, size, value), d, size) == Low(value, size);
    ReadingIsUnique(Low(value, size), v, size, signed);
  }

  lemma ReadIsCongruent(s: State, r: nat, size: DataSize, signed: bool)
    ensures Congruent(Read(s, r, size, signed), Source(s, r, size), Modulus(size))
    ensures Congruent(Source(s, r, size), Read(s, r, size, signed), Modulus(size))
    ensures Fits(size, signed, Read(s, r, size, signed))
  {
    ReadingIsCongruent(Source(s, r, size), size, signed);
    ReadingFits(Source(s, r, size), size, signed);
  }

  /// A supported range lies within its register.
  lemma RangeFits(k: Kind, size: DataSize, v: int)
    requires Supported(k, size) && InRange(k, v)
    ensures Fits(size, k.signed, v)
  {
    Pow2Values();
    Pow2Monotone(k.bits, BitCount(size));
    Pow2Monotone(k.bits - 1, BitCount(size) - 1);
  }

  lemma NativeRange(k: Kind, size: DataSize, v: int)
    requires k.bits == BitCount(size)
    ensures InRange(k, v) <==> Fits(size, k.signed, v)
  {
    Pow2Values();
  }

  // ---------------------------------------------------------------- normalization

  function Normalize(d: nat, size: DataSize, k: Kind): seq<Instruction> {
    if k.bits < BitCount(size) then [BitfieldExtend(size, k.signed, k.bits, d, d)] else []
  }

  lemma PowersDivide(a: nat, b: nat)
    requires a <= b
    ensures Pow2(b) % Pow2(a) == 0
  {
    Pow2Add(a, b - a);
    MultipleHasNoRemainder(Pow2(b - a), Pow2(a));
  }

  lemma ModulusIsPower(size: DataSize)
    ensures Modulus(size) == Pow2(BitCount(size))
  {
    Pow2Values();
  }

  lemma ExtendIsInRange(v: int, k: Kind)
    requires k.bits >= 1
    ensures InRange(k, Wrapped(k, v)) && Congruent(Wrapped(k, v), v, Pow2(k.bits)) && Congruent(v, Wrapped(k, v), Pow2(k.bits))
  {
    var p, low := Pow2(k.bits), v % Pow2(k.bits);
    assert p == 2 * Pow2(k.bits - 1);
    QuotientAndRemainder(v, p);
    RemainderIsCongruent(v, p);
    CongruentBy(low - p, low, p, -1);
    hide Congruent, Pow2;
    CongruentTransitive(low - p, low, v, p);
    CongruentTransitive(v, low, low - p, p);
  }

  lemma ExtendOfCongruent(v: int, w: int, k: Kind)
    requires Congruent(v, w, Pow2(k.bits))
    ensures Wrapped(k, v) == Wrapped(k, w)
  {
    CongruentRemainders(v, w, Pow2(k.bits));
  }

  lemma ExtendKeepsRange(v: int, k: Kind)
    requires k.bits >= 1 && InRange(k, v)
    ensures Wrapped(k, v) == v
  {
    ExtendIsInRange(v, k);
    CongruentAndClose(Wrapped(k, v), v, Pow2(k.bits));
  }

  /// Whatever the destination holds, normalization leaves the number it wraps to.
  lemma ExecNormalize(d: nat, size: DataSize, k: Kind, v: int, rest: seq<Instruction>, s: State) returns (t: State)
    requires Supported(k, size) && d != ZERO_REGISTER && Congruent(Source(s, d, size), v, Modulus(size))
    ensures Exec(Normalize(d, size, k) + rest, s) == Exec(rest, t)
    ensures ValueOf(t, d, size, k) == Wrapped(k, v) && Others(s, t, d, d)
  {
    ModulusIsPower(size);
    PowersDivide(k.bits, BitCount(size));
    var x := Source(s, d, size);
    CongruentDivisor(x, v, Modulus(size), Pow2(k.bits));
    ExtendOfCongruent(x, v, k);
    ExtendIsInRange(v, k);
    RangeFits(k, size, Wrapped(k, v));
    hide Congruent, Pow2, Extend, Exec, Perform;
    if k.bits < BitCount(size) {
      t := ExtendNarrow(d, size, k, v, rest, s);
    } else {
      assert Pow2(k.bits) == Modulus(size);
      assert [] + rest == rest;
      t := s;
      CongruentTransitive(x, v, Wrapped(k, v), Modulus(size));
      ReadingIsUnique(x, Wrapped(k, v), size, k.signed);
    }
  }

  lemma ExtendNarrow(d: nat, size: DataSize, k: Kind, v: int, rest: seq<Instruction>, s: State) returns (t: State)
    requires d != ZERO_REGISTER && Fits(size, k.signed, Wrapped(k, v))
    requires Wrapped(k, Source(s, d, size)) == Wrapped(k, v)
    ensures Exec([BitfieldExtend(size, k.signed, k.bits, d, d)] + rest, s) == Exec(rest, t)
    ensures ValueOf(t, d, size, k) == Wrapped(k, v) && Others(s, t, d, d)
  {
    var i := BitfieldExtend(size, k.signed, k.bits, d, d);
    ExecFirst(i, rest, s);
    t := Perform(i, s);
    assert t == Put(s, d, size, Wrapped(k, v));
    CongruentBy(Wrapped(k, v), Wrapped(k, v), Modulus(size), 0);
    hide Extend, Exec, Perform;
    WrittenReads(s, d, size, Wrapped(k, v), Wrapped(k, v), k.signed);
  }

  // ---------------------------------------------------------------- range checks

  /// The bit pattern of the least number, as it is written for a register of the given size.
  function SignedMinimumPattern(bits: nat, size: DataSize): nat
    requires 1 <= bits <= BitCount(size)
  {
    var value := Pow2(bits - 1);
    if bits == BitCount(size) then value
    else value + (Modulus(size) - 1) * Pow2(bits) % M64
  }

  lemma ShiftedMask(p: nat, size: DataSize)
    requires 1 <= p <= Modulus(size) / 2
    ensures (Modulus(size) - 1) * p % M64 == if size.Bits64? then M64 - p else M32 * p - p
  {
    if size.Bits64? {
      DivisionIsUnique((M64 - 1) * p, M64, p - 1, M64 - p);
    } else {
      DivisionIsUnique((M32 - 1) * p, M64, 0, M32 * p - p);
    }
  }

  lemma MinimumPatternReads(bits: nat, size: DataSize)
    requires 1 <= bits <= BitCount(size)
    ensures Congruent(SignedMinimumPattern(bits, size), -(Pow2(bits - 1) as int), Modulus(size))
  {
    var p, half, m := Pow2(bits), Pow2(bits - 1), Modulus(size);
    var v := SignedMinimumPattern(bits, size);
    ModulusIsPower(size);
    Pow2Values();
    assert p == 2 * half;
    if bits == BitCount(size) {
      CongruentBy(v, -(half as int), m, 1);
    } else {
      Pow2Monotone(bits, BitCount(size) - 1);
      ShiftedMask(p, size);
      assert v == half + if size.Bits64? then M64 - p else M32 * p - p;
      hide *;
      CongruentBy(v, -(half as int), m, if size.Bits64? then 1 else p);
    }
  }

  function RangeCheck(value: nat, size: DataSize, k: Kind, scratch: nat): seq<Instruction>
    requires 1 <= k.bits <= BitCount(size)
  {
    if k.signed then
      CompareWith(value, SignedMinimumPattern(k.bits, size), size, scratch) + TrapIf(L.SignedLess)
      + (CompareWith(value, Pow2(k.bits - 1) - 1, size, scratch) + TrapIf(L.SignedGreater))
    else CompareWith(value, Pow2(k.bits) - 1, size, scratch) + TrapIf(L.UnsignedHigher)
  }

  function CompareWith(value: nat, immediate: nat, size: DataSize, scratch: nat): seq<Instruction> {
    LoadImmediate(scratch, immediate, size) + CompareRegisters(size, value, scratch)
  }

  lemma Regroup<T>(a: seq<T>, b: seq<T>, c: seq<T>)
    ensures (a + b) + c == a + (b + c)
  {
  }

  /// Comparing a register with an immediate and trapping on a condition.
  lemma ExecCompareAndTrap(value: nat, immediate: nat, size: DataSize, scratch: nat, condition: L.Condition,
                           rest: seq<Instruction>, s: State) returns (t: State)
    requires value != scratch && scratch != ZERO_REGISTER
    ensures var f := SubtractFlags(Source(s, value, size), Low(immediate, size), size);
            Exec(CompareWith(value, immediate, size, scratch) + TrapIf(condition) + rest, s)
            == if W.Holds(condition, f) then Trap else Exec(rest, t)
    ensures Others(s, t, scratch, scratch)
  {
    hide Exec, LoadImmediate, CompareRegisters, TrapIf, SubtractFlags, W.Holds;
    var load, compare := LoadImmediate(scratch, immediate, size), CompareRegisters(size, value, scratch);
    var code := compare + (TrapIf(condition) + rest);
    assert load + compare + TrapIf(condition) + rest == load + code by {
      Regroup(load, compare, TrapIf(condition));
      Regroup(load, compare + TrapIf(condition), rest);
      Regroup(compare, TrapIf(condition), rest);
    }
    ExecLoadImmediate(scratch, immediate, size, code, s);
    var u := Put(s, scratch, size, immediate);
    ExecCompare(size, value, scratch, TrapIf(condition) + rest, u);
    assert Source(u, value, size) == Source(s, value, size);
    SourceOfPut(s, scratch, size, immediate);
    t := WithFlags(u, SubtractFlags(Source(s, value, size), Low(immediate, size), size));
    ExecTrapIf(condition, rest, t);
  }

  lemma SourceOfPut(s: State, d: nat, size: DataSize, value: int)
    requires d != ZERO_REGISTER
    ensures Source(Put(s, d, size, value), d, size) == Low(value, size)
  {
    DivisionIsUnique(Low(value, size), Modulus(size), 0, Low(value, size));
  }

  /// The check traps exactly on the numbers outside the range.
  lemma ExecRangeCheck(value: nat, size: DataSize, k: Kind, scratch: nat, rest: seq<Instruction>, s: State) returns (t: State)
    requires value != scratch && scratch != ZERO_REGISTER && 1 <= k.bits < BitCount(size)
    ensures Exec(RangeCheck(value, size, k, scratch) + rest, s)
            == if InRange(k, ValueOf(s, value, size, k)) then Exec(rest, t) else Trap
    ensures Others(s, t, scratch, scratch)
  {
    hide *;
    BoundsRead(k, size);
    if k.signed {
      t := ExecSignedCheck(value, size, k, scratch, rest, s);
    } else {
      t := ExecBound(value, Pow2(k.bits) - 1, Maximum(k), size, scratch, L.UnsignedHigher, rest, s);
      RangeCheckIs(value, size, k, scratch, s);
    }
  }

  lemma ExecSignedCheck(value: nat, size: DataSize, k: Kind, scratch: nat, rest: seq<Instruction>, s: State) returns (t: State)
    requires value != scratch && scratch != ZERO_REGISTER && 1 <= k.bits < BitCount(size) && k.signed
    ensures Exec(RangeCheck(value, size, k, scratch) + rest, s)
            == if InRange(k, ValueOf(s, value, size, k)) then Exec(rest, t) else Trap
    ensures Others(s, t, scratch, scratch)
  {
    hide *;
    BoundsRead(k, size);
    RangeCheckIs(value, size, k, scratch, s);
    var minimum, maximum := SignedMinimumPattern(k.bits, size), Pow2(k.bits - 1) - 1;
    var lower := CompareWith(value, minimum, size, scratch) + TrapIf(L.SignedLess);
    var upper := CompareWith(value, maximum, size, scratch) + TrapIf(L.SignedGreater);
    Regroup(lower, upper, rest);
    var u := ExecBound(value, minimum, Minimum(k), size, scratch, L.SignedLess, upper + rest, s);
    t := ExecBound(value, maximum, Maximum(k), size, scratch, L.SignedGreater, rest, u);
    OthersRead(s, u, scratch, value, size, true);
    OthersCompose(s, u, t, scratch);
  }

  /// The parts of a range check, and of being in range.
  lemma RangeCheckIs(value: nat, size: DataSize, k: Kind, scratch: nat, s: State)
    requires 1 <= k.bits < BitCount(size)
    ensures k.signed ==>
              && RangeCheck(value, size, k, scratch)
                 == CompareWith(value, SignedMinimumPattern(k.bits, size), size, scratch) + TrapIf(L.SignedLess)
                    + (CompareWith(value, Pow2(k.bits - 1) - 1, size, scratch) + TrapIf(L.SignedGreater))
              && (InRange(k, ValueOf(s, value, size, k)) <==>
                    !Beyond(L.SignedLess, Read(s, value, size, true), Minimum(k))
                    && !Beyond(L.SignedGreater, Read(s, value, size, true), Maximum(k)))
    ensures !k.signed ==>
              && RangeCheck(value, size, k, scratch)
                 == CompareWith(value, Pow2(k.bits) - 1, size, scratch) + TrapIf(L.UnsignedHigher)
              && (InRange(k, ValueOf(s, value, size, k)) <==> !Beyond(L.UnsignedHigher, Read(s, value, size, false), Maximum(k)))
  {
    hide CompareWith, TrapIf, Pow2;
  }

  lemma OthersRead(s: State, t: State, a: nat, r: nat, size: DataSize, signed: bool)
    requires Others(s, t, a, a) && r != a
    ensures Read(t, r, size, signed) == Read(s, r, size, signed)
  {
  }

  lemma OthersCompose(s: State, t: State, u: State, a: nat)
    requires Others(s, t, a, a) && Others(t, u, a, a)
    ensures Others(s, u, a, a)
  {
  }

  predicate Beyond(condition: L.Condition, v: int, bound: int) {
    match condition
    case SignedLess => v < bound
    case SignedGreater => v > bound
    case UnsignedHigher => v > bound
    case _ => false
  }

  /// One side of a range check.
  lemma ExecBound(value: nat, immediate: nat, bound: int, size: DataSize, scratch: nat, condition: L.Condition,
                  rest: seq<Instruction>, s: State) returns (t: State)
    requires value != scratch && scratch != ZERO_REGISTER
    requires condition.SignedLess? || condition.SignedGreater? || condition.UnsignedHigher?
    requires Reading(Low(immediate, size), size, !condition.UnsignedHigher?) == bound
    ensures Exec(CompareWith(value, immediate, size, scratch) + TrapIf(condition) + rest, s)
            == if Beyond(condition, Read(s, value, size, !condition.UnsignedHigher?), bound) then Trap else Exec(rest, t)
    ensures Others(s, t, scratch, scratch)
  {
    hide Exec, CompareWith, TrapIf, SubtractFlags, W.Holds;
    t := ExecCompareAndTrap(value, immediate, size, scratch, condition, rest, s);
    ComparisonMeans(Source(s, value, size), Low(immediate, size), size);
  }

  lemma BoundsRead(k: Kind, size: DataSize)
    requires 1 <= k.bits < BitCount(size)
    ensures k.signed ==> Reading(Low(SignedMinimumPattern(k.bits, size), size), size, true) == Minimum(k)
    ensures k.signed ==> Reading(Low(Pow2(k.bits - 1) - 1, size), size, true) == Maximum(k)
    ensures !k.signed ==> Reading(Low(Pow2(k.bits) - 1, size), size, false) == Maximum(k)
  {
    hide *;
    NarrowPowers(k, size);
    MinimumPatternReads(k.bits, size);
    PatternBounds(if k.signed then SignedMinimumPattern(k.bits, size) else 0, Pow2(k.bits - 1), Pow2(k.bits), size, k.signed);
  }

  lemma NarrowPowers(k: Kind, size: DataSize)
    requires 1 <= k.bits < BitCount(size)
    ensures Pow2(k.bits) == 2 * Pow2(k.bits - 1) && Pow2(k.bits) <= Modulus(size) / 2
    ensures Minimum(k) == if k.signed then -(Pow2(k.bits - 1) as int) else 0
    ensures Maximum(k) == if k.signed then Pow2(k.bits - 1) - 1 else Pow2(k.bits) - 1
  {
    Pow2Values();
    Pow2Monotone(k.bits, BitCount(size) - 1);
  }

  lemma PatternBounds(minimum: nat, half: nat, p: nat, size: DataSize, signed: bool)
    requires p == 2 * half && 1 <= p <= Modulus(size) / 2
    requires signed ==> Congruent(minimum, -(half as int), Modulus(size))
    ensures signed ==> Reading(Low(minimum, size), size, true) == -(half as int) && Reading(Low(half - 1, size), size, true) == half - 1
    ensures !signed ==> Reading(Low(p - 1, size), size, false) == p - 1
  {
    hide Congruent, Low, Reading;
    if signed {
      PatternReads(minimum, -(half as int), size, true);
      ImmediateReads(half - 1, size, true);
    } else {
      ImmediateReads(p - 1, size, false);
    }
  }

  lemma PatternReads(pattern: int, v: int, size: DataSize, signed: bool)
    requires Congruent(pattern, v, Modulus(size)) && Fits(size, signed, v)
    ensures Reading(Low(pattern, size), size, signed) == v
  {
    RemainderIsCongruent(pattern, Modulus(size));
    CongruentTransitive(Low(pattern, size), pattern, v, Modulus(size));
    ReadingIsUnique(Low(pattern, size), v, size, signed);
  }

  lemma ImmediateReads(v: nat, size: DataSize, signed: bool)
    requires Fits(size, signed, v)
    ensures Reading(Low(v, size), size, signed) == v
  {
    CongruentBy(v, v, Modulus(size), 0);
    PatternReads(v, v, size, signed);
  }

  // ---------------------------------------------------------------- addition and subtraction

  /// One binary operation on ordinary registers. The operands may be the destination.
  datatype Binary = Binary(destination: nat, left: nat, right: nat, size: DataSize, kind: Kind, required: bool)

  predicate ValidBinary(b: Binary) {
    Supported(b.kind, b.size) && Ordinary(b.destination) && Ordinary(b.left) && Ordinary(b.right)
  }

  /// The operands hold numbers of the operation's type.
  predicate Operands(s: State, b: Binary) {
    Normalized(s, b.left, b.size, b.kind) && Normalized(s, b.right, b.size, b.kind)
  }

  function Left(s: State, b: Binary): int {
    ValueOf(s, b.left, b.size, b.kind)
  }

  function Right(s: State, b: Binary): int {
    ValueOf(s, b.right, b.size, b.kind)
  }

  function NativeCondition(k: Kind, subtract: bool): L.Condition {
    if k.signed then L.Overflow else if subtract then L.CarryClear else L.CarrySet
  }

  function AddSubtractCode(b: Binary, subtract: bool): seq<Instruction>
    requires ValidBinary(b)
  {
    [AddSubtractRegister(b.size, subtract, b.required, b.destination, b.left, b.right)]
    + (AddSubtractCheck(b, subtract) + Normalize(b.destination, b.size, b.kind))
  }

  function AddSubtractCheck(b: Binary, subtract: bool): seq<Instruction>
    requires ValidBinary(b)
  {
    if !b.required then []
    else if b.kind.bits == BitCount(b.size) then TrapIf(NativeCondition(b.kind, subtract))
    else RangeCheck(b.destination, b.size, b.kind, SCRATCH)
  }

  /// How a checked operation ends: in a trap exactly when the result is not representable, and
  /// otherwise with the result in the destination, touching nothing but scratch registers.
  ghost predicate Exact(code: seq<Instruction>, rest: seq<Instruction>, s: State, t: State, b: Binary, traps: bool, result: int,
                        scratch: nat)
  {
    && Exec(code + rest, s) == (if traps then Trap else Exec(rest, t))
    && (!traps ==> ValueOf(t, b.destination, b.size, b.kind) == result
                   && forall r: nat | r != b.destination && r != SCRATCH && r != scratch :: Reg(t, r) == Reg(s, r))
  }

  /// The flags of a full-width operation tell whether its result was representable.
  lemma FlagsTellRange(x: int, y: int, size: DataSize, k: Kind, subtract: bool)
    requires 0 <= x < Modulus(size) && 0 <= y < Modulus(size) && k.bits == BitCount(size)
    ensures var f := if subtract then SubtractFlags(x, y, size) else AddFlags(x, y, size);
            var u, v := Reading(x, size, k.signed), Reading(y, size, k.signed);
            W.Holds(NativeCondition(k, subtract), f) <==> !InRange(k, if subtract then u - v else u + v)
  {
    var u, v := Reading(x, size, k.signed), Reading(y, size, k.signed);
    var z, w := if subtract then x - y else x + y, if subtract then u - v else u + v;
    NativeRange(k, size, w);
    if k.signed {
      ReadingIsCongruent(x, size, true);
      ReadingIsCongruent(y, size, true);
      CongruentSums(x, u, y, v, Modulus(size));
      if Fits(size, true, w) {
        PatternReads(z, w, size, true);
      } else {
        ReadingFits(Low(z, size), size, true);
      }
    }
  }

  lemma SumIsCongruent(s: State, b: Binary, subtract: bool)
    requires ValidBinary(b)
    ensures var t := Perform(AddSubtractRegister(b.size, subtract, b.required, b.destination, b.left, b.right), s);
            var v := if subtract then Left(s, b) - Right(s, b) else Left(s, b) + Right(s, b);
            && Congruent(Source(t, b.destination, b.size), v, Modulus(b.size))
            && Others(s, t, b.destination, b.destination)
  {
    var m, x, y := Modulus(b.size), Source(s, b.left, b.size), Source(s, b.right, b.size);
    var z, v := if subtract then x - y else x + y, if subtract then Left(s, b) - Right(s, b) else Left(s, b) + Right(s, b);
    SumIsWritten(s, b, subtract);
    hide Congruent, Perform, Reading, Signed;
    ReadIsCongruent(s, b.left, b.size, b.kind.signed);
    ReadIsCongruent(s, b.right, b.size, b.kind.signed);
    CongruentSums(x, Left(s, b), y, Right(s, b), m);
    RemainderIsCongruent(z, m);
    CongruentTransitive(Low(z, b.size), z, v, m);
  }

  lemma SumIsWritten(s: State, b: Binary, subtract: bool)
    requires ValidBinary(b)
    ensures var t := Perform(AddSubtractRegister(b.size, subtract, b.required, b.destination, b.left, b.right), s);
            var x, y := Source(s, b.left, b.size), Source(s, b.right, b.size);
            && Source(t, b.destination, b.size) == Low(if subtract then x - y else x + y, b.size)
            && Others(s, t, b.destination, b.destination)
  {
    var x, y := Source(s, b.left, b.size), Source(s, b.right, b.size);
    hide SubtractFlags, AddFlags;
    SourceOfPut(s, b.destination, b.size, if subtract then x - y else x + y);
  }

  /// MAIN RESULT. A checked sum or difference traps exactly when it is not representable.
  lemma AddSubtractIsExact(b: Binary, subtract: bool, rest: seq<Instruction>, s: State) returns (t: State)
    requires ValidBinary(b) && Operands(s, b)
    ensures var v := if subtract then Left(s, b) - Right(s, b) else Left(s, b) + Right(s, b);
            Exact(AddSubtractCode(b, subtract), rest, s, t, b, b.required && !InRange(b.kind, v), Wrapped(b.kind, v), SCRATCH)
  {
    hide Exec, Congruent, Perform, W.Holds, Extend, Pow2, RangeCheck, TrapIf, InRange;
    var i := AddSubtractRegister(b.size, subtract, b.required, b.destination, b.left, b.right);
    var check, normalize := AddSubtractCheck(b, subtract), Normalize(b.destination, b.size, b.kind);
    var v := if subtract then Left(s, b) - Right(s, b) else Left(s, b) + Right(s, b);
    Regroup([i], check + normalize, rest);
    Regroup(check, normalize, rest);
    ExecFirst(i, check + (normalize + rest), s);
    var u := Perform(i, s);
    SumIsCongruent(s, b, subtract);
    var w := u;
    if b.required {
      w := ExecAddSubtractCheck(b, subtract, normalize + rest, s);
    } else {
      assert [] + (normalize + rest) == normalize + rest;
    }
    if !b.required || InRange(b.kind, v) {
      assert Source(w, b.destination, b.size) == Source(u, b.destination, b.size);
      t := ExecNormalize(b.destination, b.size, b.kind, v, rest, w);
    } else {
      t := s;
    }
  }

  /// The check behind a sum or difference traps exactly when the result is not representable.
  lemma ExecAddSubtractCheck(b: Binary, subtract: bool, rest: seq<Instruction>, s: State) returns (t: State)
    requires ValidBinary(b) && Operands(s, b) && b.required
    ensures var v := if subtract then Left(s, b) - Right(s, b) else Left(s, b) + Right(s, b);
            var u := Perform(AddSubtractRegister(b.size, subtract, b.required, b.destination, b.left, b.right), s);
            && Exec(AddSubtractCheck(b, subtract) + rest, u) == (if InRange(b.kind, v) then Exec(rest, t) else Trap)
            && Others(u, t, SCRATCH, SCRATCH)
  {
    var i := AddSubtractRegister(b.size, subtract, b.required, b.destination, b.left, b.right);
    var u := Perform(i, s);
    var v := if subtract then Left(s, b) - Right(s, b) else Left(s, b) + Right(s, b);
    SumIsCongruent(s, b, subtract);
    if b.kind.bits == BitCount(b.size) {
      FlagsTellRange(Source(s, b.left, b.size), Source(s, b.right, b.size), b.size, b.kind, subtract);
      hide Exec, Congruent, W.Holds, Pow2, TrapIf, InRange;
      ExecTrapIf(NativeCondition(b.kind, subtract), rest, u);
      t := u;
    } else {
      NarrowRange(b.kind, b.size, Left(s, b), Right(s, b), subtract);
      hide Exec, Perform, Congruent, W.Holds, Pow2, TrapIf, RangeCheck;
      t := ExecRangeCheck(b.destination, b.size, b.kind, SCRATCH, rest, u);
      NarrowReads(Source(u, b.destination, b.size), v, b.size, b.kind);
    }
  }

  /// Sums and differences of narrow numbers do not leave the register by more than one wrap below zero.
  lemma NarrowRange(k: Kind, size: DataSize, u: int, v: int, subtract: bool)
    requires Supported(k, size) && k.bits < BitCount(size) && InRange(k, u) && InRange(k, v)
    ensures var w := if subtract then u - v else u + v;
            if k.signed then Fits(size, true, w) else -(Pow2(k.bits) as int) < w < Modulus(size)
    ensures 2 * Pow2(k.bits) <= Modulus(size)
  {
    Pow2Values();
    Pow2Monotone(k.bits, BitCount(size) - 1);
    assert Pow2(k.bits) == 2 * Pow2(k.bits - 1);
  }

  /// So the range check sees the number itself, or a wrapped one that is too large anyway.
  lemma NarrowReads(x: int, w: int, size: DataSize, k: Kind)
    requires 0 <= x < Modulus(size) && Congruent(x, w, Modulus(size)) && k.bits >= 1
    requires if k.signed then Fits(size, true, w) else -(Pow2(k.bits) as int) < w < Modulus(size)
    requires 2 * Pow2(k.bits) <= Modulus(size)
    ensures InRange(k, Reading(x, size, k.signed)) <==> InRange(k, w)
  {
    if k.signed || w >= 0 {
      ReadingIsUnique(x, w, size, k.signed);
    } else {
      CongruentBy(w, w + Modulus(size), Modulus(size), -1);
      CongruentTransitive(x, w, w + Modulus(size), Modulus(size));
      ReadingIsUnique(x, w + Modulus(size), size, false);
    }
  }

  // ---------------------------------------------------------------- multiplication

  function MultiplyCode(b: Binary): seq<Instruction>
    requires ValidBinary(b)
  {
    (if !b.required then [MultiplyAdd(b.size, b.destination, b.left, b.right, ZERO_REGISTER, false)]
     else if b.size.Bits32? then LongMultiply(b)
     else WideMultiply(b))
    + Normalize(b.destination, b.size, b.kind)
  }

  /// The whole product is formed in a scratch register and checked there; the destination serves as
  /// scratch for the check.
  function LongMultiply(b: Binary): seq<Instruction>
    requires ValidBinary(b) && b.size.Bits32?
  {
    [MultiplyLong(b.kind.signed, SCRATCH, b.left, b.right)]
    + (RangeCheck(SCRATCH, Bits64, b.kind, b.destination) + [MoveRegister(b.destination, SCRATCH)])
  }

  function WideMultiply(b: Binary): seq<Instruction>
    requires ValidBinary(b)
  {
    [MultiplyHigh(b.kind.signed, SCRATCH, b.left, b.right),
     MultiplyAdd(b.size, b.destination, b.left, b.right, ZERO_REGISTER, false)]
    + if b.kind.signed then HighHalfCheck(b) else CompareImmediate(b.size, SCRATCH, 0) + TrapIf(L.NotEqual)
  }

  /// The high half must repeat the sign of the low half.
  function HighHalfCheck(b: Binary): seq<Instruction> {
    var negative := [AddSubtractImmediate(b.size, false, true, SCRATCH, SCRATCH, 1), Skip(L.Equal, 2), Break];
    var positive := CompareImmediate(b.size, SCRATCH, 0) + [Skip(L.Equal, 2 + |negative|), Break];
    CompareImmediate(b.size, b.destination, 0) + ([Skip(L.Minus, 1 + |positive|)] + positive + negative)
  }

  lemma ProductFits(k: Kind, u: int, v: int)
    requires 1 <= k.bits <= 32 && InRange(k, u) && InRange(k, v)
    ensures Fits(Bits64, k.signed, u * v)
  {
    SmallBounds(k);
    hide Pow2, Minimum, Maximum;
    if k.signed {
      AbsoluteProduct(u, v, 0x8000_0000);
    } else {
      ProductIsMonotone(u, M32 - 1, v);
      ProductIsMonotone(v, M32 - 1, M32 - 1);
    }
  }

  lemma SmallBounds(k: Kind)
    requires 1 <= k.bits <= 32
    ensures if k.signed then -0x8000_0000 <= Minimum(k) && Maximum(k) < 0x8000_0000 else Minimum(k) == 0 && Maximum(k) < M32
  {
    hide Pow2;
    Pow2Values();
    Pow2Monotone(k.bits, 32);
    Pow2Monotone(k.bits - 1, 31);
  }

  lemma AbsoluteProduct(u: int, v: int, bound: nat)
    requires Abs(u) <= bound && Abs(v) <= bound
    ensures -((bound * bound) as int) <= u * v <= bound * bound
  {
    ProductIsMonotone(Abs(u), bound, Abs(v));
    ProductIsMonotone(Abs(v), bound, bound);
    assert u * v == Abs(u) * Abs(v) || u * v == -(Abs(u) * Abs(v));
  }

  lemma ExecLongMultiply(b: Binary, rest: seq<Instruction>, s: State) returns (t: State)
    requires ValidBinary(b) && Operands(s, b) && b.size.Bits32?
    ensures var v := Left(s, b) * Right(s, b);
            && Exec(LongMultiply(b) + rest, s) == (if InRange(b.kind, v) then Exec(rest, t) else Trap)
            && Others(s, t, b.destination, SCRATCH)
            && (InRange(b.kind, v) ==> Congruent(Source(t, b.destination, b.size), v, Modulus(b.size)))
  {
    var v := Left(s, b) * Right(s, b);
    ProductFits(b.kind, Left(s, b), Right(s, b));
    var long, move := MultiplyLong(b.kind.signed, SCRATCH, b.left, b.right), MoveRegister(b.destination, SCRATCH);
    var check := RangeCheck(SCRATCH, Bits64, b.kind, b.destination);
    var u := LongProduct(b, s);
    hide Exec, Perform, RangeCheck, InRange, Pow2;
    Regroup([long], check + [move], rest);
    Regroup(check, [move], rest);
    ExecFirst(long, check + ([move] + rest), s);
    var w := ExecRangeCheck(SCRATCH, Bits64, b.kind, b.destination, [move] + rest, u);
    ExecFirst(move, rest, w);
    t := Perform(move, w);
    MovedProduct(b, v, u, w);
  }

  lemma LongProduct(b: Binary, s: State) returns (u: State)
    requires ValidBinary(b) && b.size.Bits32? && Fits(Bits64, b.kind.signed, Left(s, b) * Right(s, b))
    ensures u == Perform(MultiplyLong(b.kind.signed, SCRATCH, b.left, b.right), s) && Others(s, u, SCRATCH, SCRATCH)
    ensures Read(u, SCRATCH, Bits64, b.kind.signed) == Left(s, b) * Right(s, b)
  {
    var v := Left(s, b) * Right(s, b);
    u := Put(s, SCRATCH, Bits64, v);
    CongruentBy(v, v, M64, 0);
    WrittenReads(s, SCRATCH, Bits64, v, v, b.kind.signed);
  }

  lemma MovedProduct(b: Binary, v: int, u: State, w: State)
    requires ValidBinary(b) && b.size.Bits32? && Others(u, w, b.destination, b.destination)
    requires Read(u, SCRATCH, Bits64, b.kind.signed) == v
    ensures var t := Perform(MoveRegister(b.destination, SCRATCH), w);
            && Congruent(Source(t, b.destination, b.size), v, Modulus(b.size)) && Others(u, t, b.destination, b.destination)
  {
    var x := Reg(w, SCRATCH);
    DivisionIsUnique(x, M64, 0, x);
    ReadingIsCongruent(x, Bits64, b.kind.signed);
    hide Congruent;
    assert M64 % M32 == 0;
    CongruentDivisor(x, v, M64, M32);
    RemainderIsCongruent(x, M32);
    CongruentTransitive(Low(x, Bits32), x, v, M32);
  }

  /// The high half repeats the sign of the low half exactly when the product fits one word.
  lemma HighHalfTells(v: int, high: int, low: int, signed: bool)
    requires v == M64 * high + low && 0 <= low < M64
    requires if signed then -0x4000_0000_0000_0000 <= high <= 0x4000_0000_0000_0000 else 0 <= high < M64
    ensures signed ==> (Fits(Bits64, true, v) <==> Low(high, Bits64) == if Signed(low, Bits64) < 0 then M64 - 1 else 0)
    ensures !signed ==> (Fits(Bits64, false, v) <==> Low(high, Bits64) == 0)
  {
    DivisionIsUnique(high, M64, if high < 0 then -1 else 0, if high < 0 then high + M64 else high);
  }

  lemma WideProduct(k: Kind, u: int, v: int)
    requires k.bits == 64 && InRange(k, u) && InRange(k, v)
    ensures var high := Floor(u * v, M64);
            if k.signed then -0x4000_0000_0000_0000 <= high <= 0x4000_0000_0000_0000 else 0 <= high < M64
  {
    WideBounds(k);
    hide Minimum, Maximum;
    QuotientAndRemainder(u * v, M64);
    if k.signed {
      AbsoluteProduct(u, v, M64 / 2);
    } else {
      ProductIsMonotone(u, M64 - 1, v);
      ProductIsMonotone(v, M64 - 1, M64 - 1);
    }
  }

  lemma WideBounds(k: Kind)
    requires k.bits == 64
    ensures if k.signed then Minimum(k) == -(M64 / 2) && Maximum(k) == M64 / 2 - 1 else Minimum(k) == 0 && Maximum(k) == M64 - 1
  {
    Pow2Values();
  }

  /// Running the high-half check.
  lemma ExecHighHalfCheck(b: Binary, rest: seq<Instruction>, s: State) returns (t: State)
    requires ValidBinary(b) && b.size.Bits64?
    ensures var expected := if Signed(Reg(s, b.destination), Bits64) < 0 then M64 - 1 else 0;
            Exec(HighHalfCheck(b) + rest, s) == if Reg(s, SCRATCH) == expected then Exec(rest, t) else Trap
    ensures Others(s, t, SCRATCH, SCRATCH)
  {
    hide Exec, Perform, Signed;
    var increment := AddSubtractImmediate(b.size, false, true, SCRATCH, SCRATCH, 1);
    var negative := [increment, Skip(L.Equal, 2), Break];
    var compare := CompareImmediate(b.size, SCRATCH, 0);
    var positive := compare + [Skip(L.Equal, 2 + |negative|), Break];
    var body := [Skip(L.Minus, 1 + |positive|)] + positive + negative;
    Regroup(CompareImmediate(b.size, b.destination, 0), body, rest);
    ExecCompareImmediate(b.size, b.destination, 0, body + rest, s);
    var u := WithFlags(s, SubtractFlags(Source(s, b.destination, b.size), 0, b.size));
    assert body + rest == [Skip(L.Minus, 1 + |positive|)] + positive + (negative + rest);
    ExecSkip(L.Minus, positive, negative + rest, u);
    MinusMeansNegative(s, b);
    if Signed(Reg(s, b.destination), Bits64) < 0 {
      t := ExecNegative(b, rest, u);
    } else {
      t := ExecPositive(b, negative, rest, u);
    }
  }

  lemma MinusMeansNegative(s: State, b: Binary)
    requires b.size.Bits64?
    ensures var f := SubtractFlags(Source(s, b.destination, b.size), 0, b.size);
            W.Holds(L.Minus, f) <==> Signed(Reg(s, b.destination), Bits64) < 0
  {
    var x := Reg(s, b.destination);
    DivisionIsUnique(x, M64, 0, x);
  }

  lemma ExecNegative(b: Binary, rest: seq<Instruction>, u: State) returns (t: State)
    requires b.size.Bits64?
    ensures Exec([AddSubtractImmediate(b.size, false, true, SCRATCH, SCRATCH, 1), Skip(L.Equal, 2), Break] + rest, u)
            == if Reg(u, SCRATCH) == M64 - 1 then Exec(rest, t) else Trap
    ensures Others(u, t, SCRATCH, SCRATCH)
  {
    var increment := AddSubtractImmediate(b.size, false, true, SCRATCH, SCRATCH, 1);
    var x: int := Reg(u, SCRATCH);
    DivisionIsUnique(x, M64, 0, x);
    DivisionIsUnique(x + 1, M64, if x == M64 - 1 then 1 else 0, if x == M64 - 1 then 0 else x + 1);
    t := Perform(increment, u);
    assert W.Holds(L.Equal, t.flags) <==> x == M64 - 1;
    hide Exec, Perform;
    assert [increment, Skip(L.Equal, 2), Break] + rest == [increment] + ([Skip(L.Equal, 1 + |[Break]|)] + [Break] + rest);
    ExecFirst(increment, [Skip(L.Equal, 1 + |[Break]|)] + [Break] + rest, u);
    ExecSkip(L.Equal, [Break], rest, t);
    ExecUnfolds([Break] + rest, t);
  }

  lemma ExecPositive(b: Binary, negative: seq<Instruction>, rest: seq<Instruction>, u: State) returns (t: State)
    requires b.size.Bits64?
    ensures Exec(CompareImmediate(b.size, SCRATCH, 0) + [Skip(L.Equal, 2 + |negative|), Break] + (negative + rest), u)
            == if Reg(u, SCRATCH) == 0 then Exec(rest, t) else Trap
    ensures Others(u, t, SCRATCH, SCRATCH)
  {
    var x := Reg(u, SCRATCH);
    DivisionIsUnique(x, M64, 0, x);
    ComparisonMeans(x, 0, b.size);
    hide Exec, Perform, SubtractFlags, W.Holds, CompareImmediate;
    var tail := [Skip(L.Equal, 2 + |negative|), Break];
    Regroup(CompareImmediate(b.size, SCRATCH, 0), tail, negative + rest);
    ExecCompareImmediate(b.size, SCRATCH, 0, tail + (negative + rest), u);
    t := WithFlags(u, SubtractFlags(x, 0, b.size));
    assert tail + (negative + rest) == [Skip(L.Equal, 1 + |[Break] + negative|)] + ([Break] + negative) + rest;
    ExecSkip(L.Equal, [Break] + negative, rest, t);
    ExecUnfolds([Break] + negative + rest, t);
  }

  lemma ExecWideMultiply(b: Binary, rest: seq<Instruction>, s: State) returns (t: State)
    requires ValidBinary(b) && Operands(s, b) && b.size.Bits64?
    ensures var v := Left(s, b) * Right(s, b);
            && Exec(WideMultiply(b) + rest, s) == (if InRange(b.kind, v) then Exec(rest, t) else Trap)
            && Others(s, t, b.destination, SCRATCH)
            && (InRange(b.kind, v) ==> Congruent(Source(t, b.destination, b.size), v, Modulus(b.size)))
  {
    var v := Left(s, b) * Right(s, b);
    var high, low := MultiplyHigh(b.kind.signed, SCRATCH, b.left, b.right),
                     MultiplyAdd(b.size, b.destination, b.left, b.right, ZERO_REGISTER, false);
    var check := if b.kind.signed then HighHalfCheck(b) else CompareImmediate(b.size, SCRATCH, 0) + TrapIf(L.NotEqual);
    NativeRange(b.kind, b.size, v);
    var w := HalvesTell(b, s);
    hide Exec, Perform, HighHalfCheck, CompareImmediate, TrapIf, InRange, Pow2, Congruent;
    assert WideMultiply(b) + rest == [high] + ([low] + (check + rest));
    ExecFirst(high, [low] + (check + rest), s);
    ExecFirst(low, check + rest, Perform(high, s));
    if b.kind.signed {
      t := ExecHighHalfCheck(b, rest, w);
    } else {
      t := ExecZeroCheck(b, rest, w);
    }
  }

  lemma ExecZeroCheck(b: Binary, rest: seq<Instruction>, s: State) returns (t: State)
    requires ValidBinary(b) && b.size.Bits64?
    ensures Exec(CompareImmediate(b.size, SCRATCH, 0) + TrapIf(L.NotEqual) + rest, s)
            == if Reg(s, SCRATCH) == 0 then Exec(rest, t) else Trap
    ensures Others(s, t, SCRATCH, SCRATCH)
  {
    var x := Reg(s, SCRATCH);
    DivisionIsUnique(x, M64, 0, x);
    ComparisonMeans(x, 0, b.size);
    hide Exec, SubtractFlags, W.Holds, CompareImmediate, TrapIf;
    Regroup(CompareImmediate(b.size, SCRATCH, 0), TrapIf(L.NotEqual), rest);
    ExecCompareImmediate(b.size, SCRATCH, 0, TrapIf(L.NotEqual) + rest, s);
    t := WithFlags(s, SubtractFlags(x, 0, b.size));
    ExecTrapIf(L.NotEqual, rest, t);
  }

  /// The two halves of the product, and what they say about it.
  lemma HalvesTell(b: Binary, s: State) returns (w: State)
    requires ValidBinary(b) && Operands(s, b) && b.size.Bits64?
    ensures var high, low := MultiplyHigh(b.kind.signed, SCRATCH, b.left, b.right),
                             MultiplyAdd(b.size, b.destination, b.left, b.right, ZERO_REGISTER, false);
            w == Perform(low, Perform(high, s))
    ensures Others(s, w, b.destination, SCRATCH)
    ensures var v := Left(s, b) * Right(s, b);
            && Congruent(Source(w, b.destination, b.size), v, M64) && Congruent(Reg(w, b.destination), v, M64)
            && (b.kind.signed ==>
                  (Fits(Bits64, true, v)
                   <==> Reg(w, SCRATCH) == if Signed(Reg(w, b.destination), Bits64) < 0 then M64 - 1 else 0))
            && (!b.kind.signed ==> (Fits(Bits64, false, v) <==> Reg(w, SCRATCH) == 0))
  {
    var v, high := Left(s, b) * Right(s, b), Floor(Left(s, b) * Right(s, b), M64);
    w := HalvesAre(b, s);
    WideProduct(b.kind, Left(s, b), Right(s, b));
    QuotientAndRemainder(v, M64);
    RemainderIsCongruent(v, M64);
    hide Congruent, Perform, Signed, InRange;
    HighHalfTells(v, high, v % M64, b.kind.signed);
  }

  lemma HalvesAre(b: Binary, s: State) returns (w: State)
    requires ValidBinary(b) && b.size.Bits64?
    ensures var high, low := MultiplyHigh(b.kind.signed, SCRATCH, b.left, b.right),
                             MultiplyAdd(b.size, b.destination, b.left, b.right, ZERO_REGISTER, false);
            w == Perform(low, Perform(high, s))
    ensures Others(s, w, b.destination, SCRATCH)
    ensures Reg(w, SCRATCH) == Low(Floor(Left(s, b) * Right(s, b), M64), Bits64)
    ensures Reg(w, b.destination) == Source(w, b.destination, b.size) == Left(s, b) * Right(s, b) % M64
  {
    var v, high := Left(s, b) * Right(s, b), Floor(Left(s, b) * Right(s, b), M64);
    var x, y := Source(s, b.left, b.size), Source(s, b.right, b.size);
    var u := Put(s, SCRATCH, Bits64, high);
    w := Put(u, b.destination, Bits64, x * y);
    PatternsMultiply(s, b);
    assert Source(u, b.left, b.size) == x && Source(u, b.right, b.size) == y;
    assert Reg(u, ZERO_REGISTER) == 0 && Low(0, b.size) == 0;
    SourceOfPut(u, b.destination, b.size, x * y);
    hide Congruent, Signed;
  }

  lemma PatternsMultiply(s: State, b: Binary)
    ensures Low(Source(s, b.left, b.size) * Source(s, b.right, b.size), b.size) == Low(Left(s, b) * Right(s, b), b.size)
    ensures Congruent(Low(Source(s, b.left, b.size) * Source(s, b.right, b.size), b.size), Left(s, b) * Right(s, b), Modulus(b.size))
  {
    var x, y, u, v, m := Source(s, b.left, b.size), Source(s, b.right, b.size), Left(s, b), Right(s, b), Modulus(b.size);
    ReadIsCongruent(s, b.left, b.size, b.kind.signed);
    ReadIsCongruent(s, b.right, b.size, b.kind.signed);
    hide Congruent, Read;
    CongruentProducts(x, u, y, v, m);
    CongruentRemainders(x * y, u * v, m);
    RemainderIsCongruent(u * v, m);
  }

  /// MAIN RESULT. A checked product traps exactly when it is not representable.
  lemma MultiplyIsExact(b: Binary, rest: seq<Instruction>, s: State) returns (t: State)
    requires ValidBinary(b) && Operands(s, b)
    ensures var v := Left(s, b) * Right(s, b);
            Exact(MultiplyCode(b), rest, s, t, b, b.required && !InRange(b.kind, v), Wrapped(b.kind, v), SCRATCH)
  {
    var v, normalize := Left(s, b) * Right(s, b), Normalize(b.destination, b.size, b.kind);
    var plain := MultiplyAdd(b.size, b.destination, b.left, b.right, ZERO_REGISTER, false);
    PlainProduct(s, b);
    hide Exec, Perform, Congruent, Extend, Pow2, LongMultiply, WideMultiply, Normalize, InRange;
    var w;
    if !b.required {
      Regroup([plain], normalize, rest);
      ExecFirst(plain, normalize + rest, s);
      w := Perform(plain, s);
    } else if b.size.Bits32? {
      Regroup(LongMultiply(b), normalize, rest);
      w := ExecLongMultiply(b, normalize + rest, s);
    } else {
      Regroup(WideMultiply(b), normalize, rest);
      w := ExecWideMultiply(b, normalize + rest, s);
    }
    if b.required && !InRange(b.kind, v) {
      t := s;
    } else {
      t := ExecNormalize(b.destination, b.size, b.kind, v, rest, w);
    }
  }

  lemma PlainProduct(s: State, b: Binary)
    requires ValidBinary(b)
    ensures var t := Perform(MultiplyAdd(b.size, b.destination, b.left, b.right, ZERO_REGISTER, false), s);
            && Congruent(Source(t, b.destination, b.size), Left(s, b) * Right(s, b), Modulus(b.size))
            && Others(s, t, b.destination, SCRATCH)
  {
    PatternsMultiply(s, b);
    assert Low(0, b.size) == 0;
    SourceOfPut(s, b.destination, b.size, Source(s, b.left, b.size) * Source(s, b.right, b.size));
    hide Congruent;
  }

  // ---------------------------------------------------------------- division and remainder

  /// Division is refused for a zero divisor, and for the least number divided by minus one.
  predicate DivisionTraps(k: Kind, u: int, v: int) {
    v == 0 || (k.signed && u == Minimum(k) && v == -1)
  }

  function DivisionCheck(b: Binary): seq<Instruction>
    requires ValidBinary(b)
  {
    CompareImmediate(b.size, b.right, 0) + TrapIf(L.Equal) + if b.kind.signed then MinimumCheck(b) else []
  }

  function MinimumCheck(b: Binary): seq<Instruction>
    requires ValidBinary(b)
  {
    CompareWith(b.right, M64 - 1, b.size, SCRATCH) + MinimumBody(b)
  }

  function MinimumBody(b: Binary): seq<Instruction>
    requires ValidBinary(b)
  {
    [Skip(L.NotEqual, 1 + |MinimumTrap(b)|)] + MinimumTrap(b)
  }

  function MinimumTrap(b: Binary): seq<Instruction>
    requires ValidBinary(b)
  {
    CompareWith(b.left, SignedMinimumPattern(b.kind.bits, b.size), b.size, SCRATCH) + TrapIf(L.Equal)
  }

  function DivideCode(b: Binary): seq<Instruction>
    requires ValidBinary(b)
  {
    (if b.required then DivisionCheck(b) else [])
    + ([Divide(b.size, b.destination, b.left, b.right, b.kind.signed)] + Normalize(b.destination, b.size, b.kind))
  }

  function RemainderCode(b: Binary): seq<Instruction>
    requires ValidBinary(b)
  {
    (if b.required then DivisionCheck(b) else [])
    + ([Divide(b.size, QUOTIENT, b.left, b.right, b.kind.signed)]
       + ([MultiplyAdd(b.size, b.destination, QUOTIENT, b.right, b.left, true)] + Normalize(b.destination, b.size, b.kind)))
  }

  lemma ExecEqualTrap(value: nat, immediate: nat, v: int, size: DataSize, signed: bool, rest: seq<Instruction>, s: State)
    returns (t: State)
    requires value != SCRATCH && Congruent(immediate, v, Modulus(size)) && Fits(size, signed, v)
    ensures Exec(CompareWith(value, immediate, size, SCRATCH) + TrapIf(L.Equal) + rest, s)
            == if Read(s, value, size, signed) == v then Trap else Exec(rest, t)
    ensures Others(s, t, SCRATCH, SCRATCH)
  {
    t := ExecCompareAndTrap(value, immediate, size, SCRATCH, L.Equal, rest, s);
    hide Exec, CompareWith, TrapIf, SubtractFlags, W.Holds;
    ComparisonMeans(Source(s, value, size), Low(immediate, size), size);
    PatternReads(immediate, v, size, signed);
    ReadingsDiffer(Source(s, value, size), Low(immediate, size), size, signed);
  }

  lemma ReadingsDiffer(x: int, y: int, size: DataSize, signed: bool)
    requires 0 <= x < Modulus(size) && 0 <= y < Modulus(size)
    ensures Reading(x, size, signed) == Reading(y, size, signed) <==> x == y
  {
  }

  lemma ExecDivisionCheck(b: Binary, rest: seq<Instruction>, s: State) returns (t: State)
    requires ValidBinary(b)
    ensures Exec(DivisionCheck(b) + rest, s) == if DivisionTraps(b.kind, Left(s, b), Right(s, b)) then Trap else Exec(rest, t)
    ensures Others(s, t, SCRATCH, SCRATCH)
  {
    hide Exec, CompareImmediate, TrapIf, SubtractFlags, W.Holds, MinimumCheck, Minimum;
    var compare := CompareImmediate(b.size, b.right, 0);
    var tail := if b.kind.signed then MinimumCheck(b) else [];
    assert DivisionCheck(b) + rest == compare + (TrapIf(L.Equal) + (tail + rest));
    ExecCompareImmediate(b.size, b.right, 0, TrapIf(L.Equal) + (tail + rest), s);
    var u := WithFlags(s, SubtractFlags(Source(s, b.right, b.size), 0, b.size));
    ExecTrapIf(L.Equal, tail + rest, u);
    ComparisonMeans(Source(s, b.right, b.size), 0, b.size);
    ReadingsDiffer(Source(s, b.right, b.size), 0, b.size, b.kind.signed);
    if b.kind.signed {
      t := ExecMinimumCheck(b, rest, u);
    } else {
      t := u;
      assert [] + rest == rest;
    }
  }

  lemma ExecMinimumCheck(b: Binary, rest: seq<Instruction>, s: State) returns (t: State)
    requires ValidBinary(b) && b.kind.signed
    ensures Exec(MinimumCheck(b) + rest, s)
            == if Left(s, b) == Minimum(b.kind) && Right(s, b) == -1 then Trap else Exec(rest, t)
    ensures Others(s, t, SCRATCH, SCRATCH)
  {
    MinusOneTells(s, b);
    LeftIsRead(s, b);
    hide *;
    assert MinimumCheck(b) == CompareWith(b.right, M64 - 1, b.size, SCRATCH) + MinimumBody(b) by { MinimumCheckIs(b); }
    Regroup(CompareWith(b.right, M64 - 1, b.size, SCRATCH), MinimumBody(b), rest);
    var u := ExecCompareOnly(b.right, M64 - 1, b.size, MinimumBody(b) + rest, s);
    t := ExecMinimumBody(b, rest, u);
    OthersRead(s, u, SCRATCH, b.left, b.size, true);
    OthersCompose(s, u, t, SCRATCH);
  }

  lemma ExecMinimumBody(b: Binary, rest: seq<Instruction>, s: State) returns (t: State)
    requires ValidBinary(b) && b.kind.signed
    ensures Exec(MinimumBody(b) + rest, s)
            == if !W.Holds(L.NotEqual, s.flags) && Read(s, b.left, b.size, true) == Minimum(b.kind) then Trap else Exec(rest, t)
    ensures Others(s, t, SCRATCH, SCRATCH)
  {
    assert MinimumBody(b) == [Skip(L.NotEqual, 1 + |MinimumTrap(b)|)] + MinimumTrap(b);
    hide *;
    ExecSkip(L.NotEqual, MinimumTrap(b), rest, s);
    if W.Holds(L.NotEqual, s.flags) {
      t := s;
      OthersItself(s);
    } else {
      t := ExecMinimumTrap(b, rest, s);
    }
  }

  lemma ExecMinimumTrap(b: Binary, rest: seq<Instruction>, s: State) returns (t: State)
    requires ValidBinary(b) && b.kind.signed
    ensures Exec(MinimumTrap(b) + rest, s) == if Read(s, b.left, b.size, true) == Minimum(b.kind) then Trap else Exec(rest, t)
    ensures Others(s, t, SCRATCH, SCRATCH)
  {
    hide Exec, CompareWith, TrapIf, Congruent, SignedMinimumPattern, Minimum, Pow2, Read;
    MinimumPatternReads(b.kind.bits, b.size);
    MinimumFits(b.kind, b.size);
    var pattern := SignedMinimumPattern(b.kind.bits, b.size);
    t := ExecEqualTrap(b.left, pattern, Minimum(b.kind), b.size, true, rest, s);
  }

  lemma OthersItself(s: State)
    ensures Others(s, s, SCRATCH, SCRATCH)
  {
  }

  lemma LeftIsRead(s: State, b: Binary)
    ensures Left(s, b) == Read(s, b.left, b.size, b.kind.signed) && Right(s, b) == Read(s, b.right, b.size, b.kind.signed)
  {
  }

  lemma MinimumCheckIs(b: Binary)
    requires ValidBinary(b)
    ensures MinimumCheck(b) == CompareWith(b.right, M64 - 1, b.size, SCRATCH) + MinimumBody(b)
  {
  }

  lemma MinusOneTells(s: State, b: Binary)
    requires b.kind.signed
    ensures var f := SubtractFlags(Source(s, b.right, b.size), Low(M64 - 1, b.size), b.size);
            W.Holds(L.NotEqual, f) <==> Right(s, b) != -1
  {
    CongruentBy(M64 - 1, -1, Modulus(b.size), if b.size.Bits32? then M32 else 1);
    hide Congruent, SubtractFlags, W.Holds, Reading;
    ComparisonMeans(Source(s, b.right, b.size), Low(M64 - 1, b.size), b.size);
    PatternReads(M64 - 1, -1, b.size, true);
    ReadingsDiffer(Source(s, b.right, b.size), Low(M64 - 1, b.size), b.size, true);
    ReadIsReading(s, b.right, b.size, true);
  }

  lemma ReadIsReading(s: State, r: nat, size: DataSize, signed: bool)
    ensures Read(s, r, size, signed) == Reading(Source(s, r, size), size, signed)
  {
  }

  lemma MinimumFits(k: Kind, size: DataSize)
    requires Supported(k, size) && k.signed
    ensures Fits(size, true, Minimum(k)) && Minimum(k) == -(Pow2(k.bits - 1) as int)
  {
    hide Pow2;
    Pow2Values();
    Pow2Monotone(k.bits - 1, BitCount(size) - 1);
  }

  lemma ExecCompareOnly(value: nat, immediate: nat, size: DataSize, rest: seq<Instruction>, s: State) returns (t: State)
    requires value != SCRATCH
    ensures Exec(CompareWith(value, immediate, size, SCRATCH) + rest, s) == Exec(rest, t)
    ensures t.flags == SubtractFlags(Source(s, value, size), Low(immediate, size), size) && Others(s, t, SCRATCH, SCRATCH)
  {
    hide Exec, LoadImmediate, CompareRegisters, SubtractFlags;
    var load, compare := LoadImmediate(SCRATCH, immediate, size), CompareRegisters(size, value, SCRATCH);
    Regroup(load, compare, rest);
    ExecLoadImmediate(SCRATCH, immediate, size, compare + rest, s);
    var u := Put(s, SCRATCH, size, immediate);
    ExecCompare(size, value, SCRATCH, rest, u);
    SourceOfPut(s, SCRATCH, size, immediate);
    t := WithFlags(u, SubtractFlags(Source(s, value, size), Low(immediate, size), size));
  }

  /// The size of a truncated quotient and of its remainder.
  lemma Magnitudes(u: int, v: int) returns (q: nat, r: nat)
    requires v != 0
    ensures Quotient(u, v) == if (u < 0) == (v < 0) then q else -(q as int)
    ensures u - Quotient(u, v) * v == if u < 0 then -(r as int) else r
    ensures q <= Abs(u) && (Abs(v) >= 2 ==> 2 * q <= Abs(u)) && (Abs(v) == 1 ==> q == Abs(u))
    ensures r <= Abs(u) && r < Abs(v)
  {
    q, r := DivideMagnitudes(Abs(u), Abs(v));
    var z := Quotient(u, v);
    assert z == if (u < 0) == (v < 0) then q else -(q as int);
    hide Quotient;
    SignedProduct(u, v, q, Abs(v));
    assert z * v == if u < 0 then -((Abs(v) * q) as int) else Abs(v) * q;
  }

  lemma DivideMagnitudes(a: nat, d: nat) returns (q: nat, r: nat)
    requires d > 0
    ensures q == a / d && a == d * q + r && r < d && q <= a && r <= a
    ensures (d >= 2 ==> 2 * q <= a) && (d == 1 ==> q == a)
  {
    q, r := a / d, a % d;
    QuotientAndRemainder(a, d);
    ProductIsMonotone(1, d, q);
    if d >= 2 { ProductIsMonotone(2, d, q); }
  }

  lemma SignedProduct(u: int, v: int, q: nat, d: nat)
    requires d == Abs(v)
    ensures (if (u < 0) == (v < 0) then q else -(q as int)) * v == if u < 0 then -((d * q) as int) else d * q
  {
    assert (-(q as int)) * v == -(q * v) && q * -v == -(q * v);
  }

  /// An admitted quotient is representable, and so is its remainder.
  lemma QuotientInRange(k: Kind, u: int, v: int)
    requires 1 <= k.bits && InRange(k, u) && InRange(k, v) && !DivisionTraps(k, u, v)
    ensures InRange(k, Quotient(u, v)) && InRange(k, u - Quotient(u, v) * v)
  {
    hide Quotient, Pow2;
    var q, r := Magnitudes(u, v);
    var remainder := u - Quotient(u, v) * v;
  }

  /// A division is refused exactly where its quotient is undefined or not representable.
  lemma DivisionTrapsWhereItMust(k: Kind, u: int, v: int)
    requires 1 <= k.bits && InRange(k, u) && InRange(k, v)
    ensures DivisionTraps(k, u, v) <==> v == 0 || !InRange(k, Quotient(u, v))
  {
    if !DivisionTraps(k, u, v) {
      QuotientInRange(k, u, v);
    } else if v != 0 {
      var q, r := Magnitudes(u, v);
      hide Quotient;
    }
  }

  /// The quotient rounds toward zero: the remainder is smaller than the divisor and has the sign of the
  /// dividend.
  lemma QuotientTruncates(u: int, v: int)
    requires v != 0
    ensures var remainder := u - Quotient(u, v) * v;
            Abs(remainder) < Abs(v) && (u >= 0 ==> remainder >= 0) && (u <= 0 ==> remainder <= 0)
  {
    var q, r := Magnitudes(u, v);
    hide Quotient;
  }

  /// The check in front of a division, if one is required.
  lemma ExecGuard(b: Binary, rest: seq<Instruction>, s: State) returns (t: State)
    requires ValidBinary(b)
    ensures Exec((if b.required then DivisionCheck(b) else []) + rest, s)
            == if b.required && DivisionTraps(b.kind, Left(s, b), Right(s, b)) then Trap else Exec(rest, t)
    ensures Others(s, t, SCRATCH, SCRATCH) && Left(t, b) == Left(s, b) && Right(t, b) == Right(s, b)
  {
    hide Exec, DivisionCheck, DivisionTraps, Signed;
    if b.required {
      t := ExecDivisionCheck(b, rest, s);
    } else {
      t := s;
      assert [] + rest == rest;
    }
  }

  lemma OthersThree(s: State, t: State, u: State, w: State, d: nat, q: nat)
    requires Others(s, t, SCRATCH, SCRATCH) && Others(t, u, d, q) && Others(u, w, d, d)
    ensures forall r: nat | r != d && r != SCRATCH && r != q :: Reg(w, r) == Reg(s, r)
  {
  }

  /// MAIN RESULT. A checked quotient traps exactly for a zero divisor or the least number by minus one.
  lemma DivideIsExact(b: Binary, rest: seq<Instruction>, s: State) returns (t: State)
    requires ValidBinary(b) && Operands(s, b)
    ensures var u, v := Left(s, b), Right(s, b);
            && Exact(DivideCode(b), rest, s, t, b, b.required && DivisionTraps(b.kind, u, v), Wrapped(b.kind, Quotient(u, v)), SCRATCH)
            && (!DivisionTraps(b.kind, u, v) ==> Wrapped(b.kind, Quotient(u, v)) == Quotient(u, v))
  {
    var guard := if b.required then DivisionCheck(b) else [];
    var divide, normalize := Divide(b.size, b.destination, b.left, b.right, b.kind.signed), Normalize(b.destination, b.size, b.kind);
    var w := ExecGuard(b, [divide] + (normalize + rest), s);
    QuotientIsWritten(b, b.destination, w);
    if !DivisionTraps(b.kind, Left(s, b), Right(s, b)) { QuotientIsKept(b, s); }
    hide Exec, Perform, Congruent, Extend, DivisionCheck, DivisionTraps, Normalize, Quotient, Left, Right, ValueOf, Operands;
    Regroup(guard, [divide] + normalize, rest);
    Regroup([divide], normalize, rest);
    ExecFirst(divide, normalize + rest, w);
    t := ExecNormalize(b.destination, b.size, b.kind, Quotient(Left(s, b), Right(s, b)), rest, Perform(divide, w));
    OthersThree(s, w, Perform(divide, w), t, b.destination, SCRATCH);
  }

  lemma QuotientIsKept(b: Binary, s: State)
    requires ValidBinary(b) && Operands(s, b) && !DivisionTraps(b.kind, Left(s, b), Right(s, b))
    ensures var u, v := Left(s, b), Right(s, b);
            && Wrapped(b.kind, Quotient(u, v)) == Quotient(u, v)
            && Wrapped(b.kind, u - Quotient(u, v) * v) == u - Quotient(u, v) * v
  {
    hide InRange, Extend, Quotient, DivisionTraps, Read;
    var u, v := Left(s, b), Right(s, b);
    QuotientInRange(b.kind, u, v);
    ExtendKeepsRange(Quotient(u, v), b.kind);
    ExtendKeepsRange(u - Quotient(u, v) * v, b.kind);
  }

  lemma QuotientIsWritten(b: Binary, d: nat, s: State)
    requires d != ZERO_REGISTER
    ensures var t := Perform(Divide(b.size, d, b.left, b.right, b.kind.signed), s);
            && Congruent(Source(t, d, b.size), Quotient(Left(s, b), Right(s, b)), Modulus(b.size)) && Others(s, t, d, SCRATCH)
  {
    var q := Quotient(Left(s, b), Right(s, b));
    SourceOfPut(s, d, b.size, q);
    RemainderIsCongruent(q, Modulus(b.size));
    hide Congruent, Quotient, Signed;
  }

  /// MAIN RESULT. A checked remainder traps under the same condition as the quotient.
  lemma RemainderIsExact(b: Binary, rest: seq<Instruction>, s: State) returns (t: State)
    requires ValidBinary(b) && Operands(s, b)
    requires b.left != QUOTIENT && b.right != QUOTIENT && b.destination != QUOTIENT
    ensures var u, v := Left(s, b), Right(s, b);
            var remainder := u - Quotient(u, v) * v;
            && Exact(RemainderCode(b), rest, s, t, b, b.required && DivisionTraps(b.kind, u, v), Wrapped(b.kind, remainder), QUOTIENT)
            && (!DivisionTraps(b.kind, u, v) ==> Wrapped(b.kind, remainder) == remainder)
  {
    hide Exec, Perform, Congruent, Extend, DivisionCheck, Normalize, Quotient, ValueOf;
    var guard := if b.required then DivisionCheck(b) else [];
    var divide := Divide(b.size, QUOTIENT, b.left, b.right, b.kind.signed);
    var subtract, normalize := MultiplyAdd(b.size, b.destination, QUOTIENT, b.right, b.left, true),
                               Normalize(b.destination, b.size, b.kind);
    var w := ExecGuard(b, [divide] + ([subtract] + (normalize + rest)), s);
    RemainderIsWritten(b, w);
    if !DivisionTraps(b.kind, Left(s, b), Right(s, b)) { QuotientIsKept(b, s); }
    hide DivisionTraps, Left, Right, Operands;
    RegroupThree(guard, [divide], [subtract], normalize, rest);
    ExecFirst(divide, [subtract] + (normalize + rest), w);
    ExecFirst(subtract, normalize + rest, Perform(divide, w));
    var u := Perform(subtract, Perform(divide, w));
    t := ExecNormalize(b.destination, b.size, b.kind, Left(s, b) - Quotient(Left(s, b), Right(s, b)) * Right(s, b), rest, u);
    OthersThree(s, w, u, t, b.destination, QUOTIENT);
  }

  lemma RegroupThree<T>(a: seq<T>, b: seq<T>, c: seq<T>, d: seq<T>, e: seq<T>)
    ensures a + (b + (c + d)) + e == a + (b + (c + (d + e)))
  {
    Regroup(a, b + (c + d), e);
    Regroup(b, c + d, e);
    Regroup(c, d, e);
  }

  lemma RemainderIsWritten(b: Binary, s: State)
    requires ValidBinary(b) && b.left != QUOTIENT && b.right != QUOTIENT && b.destination != QUOTIENT
    ensures var divide := Divide(b.size, QUOTIENT, b.left, b.right, b.kind.signed);
            var subtract := MultiplyAdd(b.size, b.destination, QUOTIENT, b.right, b.left, true);
            var t := Perform(subtract, Perform(divide, s));
            && Congruent(Source(t, b.destination, b.size), Left(s, b) - Quotient(Left(s, b), Right(s, b)) * Right(s, b), Modulus(b.size))
            && Others(s, t, b.destination, QUOTIENT)
  {
    var u, v, m := Left(s, b), Right(s, b), Modulus(b.size);
    var x, y, q := Source(s, b.left, b.size), Source(s, b.right, b.size), Quotient(u, v);
    QuotientIsWritten(b, QUOTIENT, s);
    ReadIsCongruent(s, b.left, b.size, b.kind.signed);
    ReadIsCongruent(s, b.right, b.size, b.kind.signed);
    var d := Perform(Divide(b.size, QUOTIENT, b.left, b.right, b.kind.signed), s);
    var p := Source(d, QUOTIENT, b.size);
    var z := x + -(p * y);
    assert Perform(MultiplyAdd(b.size, b.destination, QUOTIENT, b.right, b.left, true), d) == Put(d, b.destination, b.size, z);
    SourceOfPut(d, b.destination, b.size, z);
    hide Congruent, Quotient, Signed, Perform;
    CongruentProducts(p, q, y, v, m);
    CongruentSums(x, u, p * y, q * v, m);
    RemainderIsCongruent(z, m);
    CongruentTransitive(Low(z, b.size), z, u - q * v, m);
  }

  // ---------------------------------------------------------------- shifts

  function ShiftCheck(b: Binary): seq<Instruction>
    requires ValidBinary(b)
  {
    CompareWith(b.right, b.kind.bits, b.size, SCRATCH) + TrapIf(L.CarrySet)
  }

  /// A rotation has nothing to check.
  function ShiftCode(b: Binary, shift: ShiftKind): seq<Instruction>
    requires ValidBinary(b)
  {
    (if b.required && !shift.RotateRight? then ShiftCheck(b) else [])
    + ([VariableShift(b.size, shift, b.destination, b.left, b.right)] + Normalize(b.destination, b.size, b.kind))
  }

  /// The mathematical shift of a number, or the rotation of its `n` bits.
  function ShiftOf(shift: ShiftKind, u: int, amount: nat, n: nat): int
    requires amount <= n
  {
    match shift
    case ShiftLeft => u * Pow2(amount)
    case RotateRight => Rotated(u, amount, n)
    case _ => Floor(u, Pow2(amount))
  }

  /// The amount that the instruction takes: only its low bits count.
  function TakenAmount(s: State, b: Binary): (r: nat)
    ensures r < BitCount(b.size)
  {
    Right(s, b) % BitCount(b.size)
  }

  lemma AmountIsTaken(s: State, b: Binary)
    ensures Source(s, b.right, b.size) % BitCount(b.size) == TakenAmount(s, b)
  {
    ReadIsCongruent(s, b.right, b.size, b.kind.signed);
    hide Congruent, Read, Source;
    CongruentDivisor(Source(s, b.right, b.size), Right(s, b), Modulus(b.size), BitCount(b.size));
    CongruentRemainders(Source(s, b.right, b.size), Right(s, b), BitCount(b.size));
  }

  lemma ExecShiftCheck(b: Binary, rest: seq<Instruction>, s: State) returns (t: State)
    requires ValidBinary(b)
    ensures Exec(ShiftCheck(b) + rest, s) == if 0 <= Right(s, b) < b.kind.bits then Exec(rest, t) else Trap
    ensures Others(s, t, SCRATCH, SCRATCH)
  {
    hide Exec, CompareWith, TrapIf, SubtractFlags, W.Holds, Pow2;
    t := ExecCompareAndTrap(b.right, b.kind.bits, b.size, SCRATCH, L.CarrySet, rest, s);
    DivisionIsUnique(b.kind.bits, Modulus(b.size), 0, b.kind.bits);
    ComparisonMeans(Source(s, b.right, b.size), b.kind.bits, b.size);
  }

  /// A right shift is arithmetic for signed numbers. Only unsigned words of 64 bits are rotated.
  predicate Suits(b: Binary, shift: ShiftKind) {
    match shift
    case ShiftLeft => true
    case ShiftRightArithmetic => b.kind.signed
    case ShiftRightLogical => !b.kind.signed
    case RotateRight => b.size.Bits64? && b.kind == Kind(false, 64)
  }

  lemma ShiftIsWritten(b: Binary, shift: ShiftKind, s: State)
    requires ValidBinary(b) && Suits(b, shift)
    ensures var t := Perform(VariableShift(b.size, shift, b.destination, b.left, b.right), s);
            && Congruent(Source(t, b.destination, b.size), ShiftOf(shift, Left(s, b), TakenAmount(s, b), BitCount(b.size)), Modulus(b.size))
            && Others(s, t, b.destination, SCRATCH)
  {
    var x, u, m, amount := Source(s, b.left, b.size), Left(s, b), Modulus(b.size), TakenAmount(s, b);
    AmountIsTaken(s, b);
    hide TakenAmount;
    ReadIsCongruent(s, b.left, b.size, b.kind.signed);
    var z := Shifted(shift, x, amount, b.size);
    SourceOfPut(s, b.destination, b.size, z);
    RemainderIsCongruent(z, m);
    CongruentBy(Pow2(amount), Pow2(amount), m, 0);
    hide Congruent, Pow2, Floor, Rotated;
    if shift.ShiftLeft? {
      CongruentProducts(x, u, Pow2(amount), Pow2(amount), m);
      CongruentTransitive(Low(z, b.size), z, u * Pow2(amount), m);
    }
  }

  lemma ShiftKeepsRange(k: Kind, shift: ShiftKind, u: int, amount: nat, n: nat)
    requires k.bits >= 1 && InRange(k, u) && !shift.ShiftLeft? && amount <= n && (shift.RotateRight? ==> k == Kind(false, n))
    ensures Wrapped(k, ShiftOf(shift, u, amount, n)) == ShiftOf(shift, u, amount, n)
  {
    if shift.RotateRight? {
      RotationKeepsRange(u, amount, n);
    } else {
      FloorShrinks(u, Pow2(amount));
    }
    hide Pow2, Extend, Rotated;
    ExtendKeepsRange(ShiftOf(shift, u, amount, n), k);
  }

  lemma RotationKeepsRange(x: nat, k: nat, n: nat)
    requires k <= n && x < Pow2(n)
    ensures 0 <= Rotated(x, k, n) < Pow2(n)
    ensures x / Pow2(k) < Pow2(n - k)
  {
    hide Pow2;
    Pow2Add(k, n - k);
    HighPartFits(x, Pow2(k), Pow2(n - k));
    PartsFit(x / Pow2(k), x % Pow2(k), Pow2(k), Pow2(n - k));
  }

  lemma HighPartFits(x: nat, p: nat, q: nat)
    requires p > 0 && x < p * q
    ensures x / p < q
  {
    QuotientAndRemainder(x, p);
    var high := x / p;
    if high >= q {
      ProductIsMonotone(q, high, p);
    }
  }

  lemma PartsFit(high: nat, low: nat, p: nat, q: nat)
    requires high < q && low < p
    ensures 0 <= high + low * q < p * q
  {
    ProductIsMonotone(low + 1, p, q);
    assert (low + 1) * q == low * q + q;
  }

  /// A rotation to the right takes the low bits to the top and moves the others down.
  lemma LowBitsMoveToTheTop(high: nat, low: nat, k: nat, n: nat)
    requires k <= n && high < Pow2(n - k) && low < Pow2(k)
    ensures Rotated(high * Pow2(k) + low, k, n) == low * Pow2(n - k) + high
  {
    hide Pow2;
    DivisionIsUnique(high * Pow2(k) + low, Pow2(k), high, low);
  }

  /// A shift to the right rounds down, for negative numbers too.
  lemma ShiftRightRoundsDown(u: int, amount: nat, n: nat)
    requires amount <= n
    ensures var z, p := ShiftOf(ShiftRightArithmetic, u, amount, n), Pow2(amount);
            z * p <= u < z * p + p && z == ShiftOf(ShiftRightLogical, u, amount, n)
  {
    hide Pow2;
    QuotientAndRemainder(u, Pow2(amount));
  }

  /// Rotating by an amount and by what is left of the width gives the number back.
  lemma RotationsCancel(x: nat, k: nat, n: nat)
    requires k <= n && x < Pow2(n)
    ensures Rotated(Rotated(x, k, n), n - k, n) == x
  {
    RotationKeepsRange(x, k, n);
    hide Pow2;
    PartsSwapBack(x, Pow2(k), Pow2(n - k));
    assert n - (n - k) == k;
  }

  lemma PartsSwapBack(x: nat, p: nat, q: nat)
    requires p > 0 && q > 0 && x / p < q
    ensures var y := x / p + x % p * q; y / q + y % q * p == x
  {
    QuotientAndRemainder(x, p);
    DivisionIsUnique(x / p + x % p * q, q, x % p, x / p);
  }

  lemma FloorShrinks(u: int, p: nat)
    requires p >= 1
    ensures if u >= 0 then 0 <= Floor(u, p) <= u else u <= Floor(u, p) < 0
  {
    QuotientAndRemainder(u, p);
    var q, r := u / p, u % p;
    if q >= 0 {
      ProductIsMonotone(1, p, q);
    } else {
      ProductIsMonotone(1, p, -q - 1);
      assert p * (-q - 1) == -(p * q) - p;
    }
  }

  /// MAIN RESULT. A checked shift traps exactly when the amount is not below the width. Otherwise, and
  /// unchecked, the amount counts modulo the register's width: a left shift keeps the low bits of the
  /// product, a right shift is the rounded-down quotient, a rotation moves its bits around.
  lemma ShiftIsExact(b: Binary, shift: ShiftKind, rest: seq<Instruction>, s: State) returns (t: State)
    requires ValidBinary(b) && Operands(s, b) && Suits(b, shift)
    ensures var result := ShiftOf(shift, Left(s, b), TakenAmount(s, b), BitCount(b.size));
            && Exact(ShiftCode(b, shift), rest, s, t, b, b.required && !shift.RotateRight? && !(0 <= Right(s, b) < b.kind.bits),
                     Wrapped(b.kind, result), SCRATCH)
            && (!shift.ShiftLeft? ==> Wrapped(b.kind, result) == result)
    ensures 0 <= Right(s, b) < b.kind.bits ==> TakenAmount(s, b) == Right(s, b)
  {
    var u, amount, n := Left(s, b), TakenAmount(s, b), BitCount(b.size);
    var checked := b.required && !shift.RotateRight?;
    if 0 <= Right(s, b) < b.kind.bits { DivisionIsUnique(Right(s, b), n, 0, Right(s, b)); }
    if !shift.ShiftLeft? { ShiftKeepsRange(b.kind, shift, u, amount, n); }
    var check := if checked then ShiftCheck(b) else [];
    var move, normalize := VariableShift(b.size, shift, b.destination, b.left, b.right), Normalize(b.destination, b.size, b.kind);
    var w := ExecShiftGuard(b, checked, [move] + (normalize + rest), s);
    SameAmount(s, w, b);
    t := s;
    if !checked || 0 <= Right(s, b) < b.kind.bits {
      ShiftIsWritten(b, shift, w);
      hide Exec, Perform, Congruent, Extend, ShiftCheck, Normalize, ShiftOf, Left, Right, ValueOf, Operands, TakenAmount;
      Regroup(check, [move] + normalize, rest);
      Regroup([move], normalize, rest);
      ExecFirst(move, normalize + rest, w);
      t := ExecNormalize(b.destination, b.size, b.kind, ShiftOf(shift, u, amount, n), rest, Perform(move, w));
      OthersThree(s, w, Perform(move, w), t, b.destination, SCRATCH);
    } else {
      hide Exec, Perform, Extend, ShiftCheck, Normalize, ShiftOf, Left, Right, ValueOf, Operands, TakenAmount;
      Regroup(check, [move] + normalize, rest);
      Regroup([move], normalize, rest);
    }
  }

  lemma SameAmount(s: State, t: State, b: Binary)
    requires Right(t, b) == Right(s, b)
    ensures TakenAmount(t, b) == TakenAmount(s, b)
  {
  }

  lemma ExecShiftGuard(b: Binary, checked: bool, rest: seq<Instruction>, s: State) returns (t: State)
    requires ValidBinary(b)
    ensures Exec((if checked then ShiftCheck(b) else []) + rest, s)
            == if !checked || 0 <= Right(s, b) < b.kind.bits then Exec(rest, t) else Trap
    ensures Others(s, t, SCRATCH, SCRATCH) && Left(t, b) == Left(s, b) && Right(t, b) == Right(s, b)
  {
    hide Exec, ShiftCheck, Signed;
    if checked {
      t := ExecShiftCheck(b, rest, s);
    } else {
      t := s;
      assert [] + rest == rest;
    }
  }
}
