/**
 A small instruction set: registers modulo 2^64, the NZCV flags, forward branches and traps, as in
 sections C1.2.4 and C6.2 of the Arm Architecture Reference Manual.

 A branch names the number of instructions from itself to its target. `CodeLayout` and `CodeWords`
 say how labels become distances.
 */
module Isa {
  import opened Arithmetic
  import opened CodeLayout
  import opened CodeWords

  datatype DataSize = Bits32 | Bits64

  const M32: int := 0x1_0000_0000
  const M64: int := 0x1_0000_0000_0000_0000

  function Modulus(size: DataSize): int {
    if size.Bits32? then M32 else M64
  }

  type Word64 = x: int | 0 <= x < 0x1_0000_0000_0000_0000

  function Low(x: int, size: DataSize): (r: int)
    ensures 0 <= r < Modulus(size)
  {
    x % Modulus(size)
  }

  /// Two's complement reading of a pattern.
  function Signed(x: int, size: DataSize): int {
    if x < Modulus(size) / 2 then x else x - Modulus(size)
  }

  datatype ShiftKind = ShiftLeft | ShiftRightLogical | ShiftRightArithmetic | RotateRight

  const ZERO_REGISTER: nat := 31

  datatype Instruction =
    | AddSubtractRegister(size: DataSize, subtract: bool, setFlags: bool, destination: nat, left: nat, right: nat)
    | AddSubtractImmediate(size: DataSize, subtract: bool, setFlags: bool, destination: nat, left: nat, immediate: nat)
    | MultiplyAdd(size: DataSize, destination: nat, left: nat, right: nat, addend: nat, subtractProduct: bool)
    | MultiplyLong(signed: bool, destination: nat, left: nat, right: nat)
    | MultiplyHigh(signed: bool, destination: nat, left: nat, right: nat)
    | Divide(size: DataSize, destination: nat, left: nat, right: nat, signed: bool)
    | VariableShift(size: DataSize, kind: ShiftKind, destination: nat, value: nat, amount: nat)
    | BitfieldExtend(size: DataSize, signed: bool, sourceBits: nat, destination: nat, source: nat)
    | MoveWideZero(size: DataSize, destination: nat, immediate: nat, shift: nat)
    | MoveWideKeep(size: DataSize, destination: nat, immediate: nat, shift: nat)
    | MoveRegister(destination: nat, source: nat)
    | ReadCounter(destination: nat)
    | ReadFrequency(destination: nat)
    | Skip(condition: Condition, distance: nat)
    | Jump(distance: nat)
    | Break

  datatype State = State(regs: map<nat, Word64>, flags: Flags, counter: Word64, frequency: Word64)

  datatype Execution = Done(state: State) | Trap | Stuck

  function Reg(s: State, r: nat): Word64 {
    if r == ZERO_REGISTER || r !in s.regs then 0 else s.regs[r]
  }

  /// A 32-bit write clears the upper half.
  function Put(s: State, r: nat, size: DataSize, value: int): State {
    if r == ZERO_REGISTER then s else s.(regs := s.regs[r := Low(value, size)])
  }

  function Source(s: State, r: nat, size: DataSize): int {
    Low(Reg(s, r), size)
  }

  function AddFlags(x: int, y: int, size: DataSize): Flags {
    var r := Low(x + y, size);
    Flags(Signed(r, size) < 0, r == 0, x + y >= Modulus(size), Signed(r, size) != Signed(x, size) + Signed(y, size))
  }

  /// Carry means that nothing was borrowed.
  function SubtractFlags(x: int, y: int, size: DataSize): Flags {
    var r := Low(x - y, size);
    Flags(Signed(r, size) < 0, r == 0, x >= y, Signed(r, size) != Signed(x, size) - Signed(y, size))
  }

  function Pow2(n: nat): (r: nat)
    ensures r >= 1
  {
    if n == 0 then 1 else 2 * Pow2(n - 1)
  }

  /// Division that truncates toward zero; a zero divisor gives zero.
  function Quotient(x: int, y: int): int {
    if y == 0 then 0
    else if (x < 0) == (y < 0) then Abs(x) / Abs(y) else -(Abs(x) / Abs(y))
  }

  function Abs(x: int): nat {
    if x < 0 then -x else x
  }

  function Floor(x: int, d: nat): int
    requires d > 0
  {
    x / d
  }

  /// The low `bits` bits, sign-extended or not.
  function Extend(x: int, bits: nat, signed: bool): int {
    var low := x % Pow2(bits);
    if signed && bits > 0 && low >= Pow2(bits - 1) then low - Pow2(bits) else low
  }

  function BitCount(size: DataSize): nat {
    if size.Bits32? then 32 else 64
  }

  function Shifted(kind: ShiftKind, x: int, k: nat, size: DataSize): int
    requires k <= BitCount(size)
  {
    match kind
    case ShiftLeft => x * Pow2(k)
    case ShiftRightLogical => Floor(x, Pow2(k))
    case ShiftRightArithmetic => Floor(Signed(x, size), Pow2(k))
    case RotateRight => Rotated(x, k, BitCount(size))
  }

  /// The low `k` of `n` bits move to the top.
  function Rotated(x: int, k: nat, n: nat): int
    requires k <= n
  {
    Floor(x, Pow2(k)) + x % Pow2(k) * Pow2(n - k)
  }

  /// What an instruction other than a branch or trap does.
  function Perform(i: Instruction, s: State): State
    requires !i.Skip? && !i.Jump? && !i.Break?
  {
    match i
    case AddSubtractRegister(size, subtract, setFlags, d, l, r) =>
      AddSubtract(s, size, subtract, setFlags, d, Source(s, l, size), Source(s, r, size))
    case AddSubtractImmediate(size, subtract, setFlags, d, l, v) =>
      AddSubtract(s, size, subtract, setFlags, d, Source(s, l, size), v)
    case MultiplyAdd(size, d, l, r, a, subtractProduct) =>
      var product := Source(s, l, size) * Source(s, r, size);
      Put(s, d, size, Source(s, a, size) + if subtractProduct then -product else product)
    case MultiplyLong(signed, d, l, r) => Put(s, d, Bits64, Read(s, l, Bits32, signed) * Read(s, r, Bits32, signed))
    case MultiplyHigh(signed, d, l, r) =>
      Put(s, d, Bits64, Floor(Read(s, l, Bits64, signed) * Read(s, r, Bits64, signed), M64))
    case Divide(size, d, l, r, signed) => Put(s, d, size, Quotient(Read(s, l, size, signed), Read(s, r, size, signed)))
    case VariableShift(size, kind, d, v, a) =>
      Put(s, d, size, Shifted(kind, Source(s, v, size), Source(s, a, size) % BitCount(size), size))
    case BitfieldExtend(size, signed, bits, d, v) => Put(s, d, size, Extend(Source(s, v, size), bits, signed))
    case MoveWideZero(size, d, v, shift) => Put(s, d, size, v * Pow2(shift))
    case MoveWideKeep(size, d, v, shift) =>
      var x := Source(s, d, size);
      Put(s, d, size, x + (v - x / Pow2(shift) % 65536) * Pow2(shift))
    case MoveRegister(d, r) => Put(s, d, Bits64, Reg(s, r))
    case ReadCounter(d) => Put(s, d, Bits64, s.counter)
    case ReadFrequency(d) => Put(s, d, Bits64, s.frequency)
  }

  function Read(s: State, r: nat, size: DataSize, signed: bool): int {
    if signed then Signed(Source(s, r, size), size) else Source(s, r, size)
  }

  function AddSubtract(s: State, size: DataSize, subtract: bool, setFlags: bool, d: nat, x: int, y: int): State {
    var t := Put(s, d, size, if subtract then x - y else x + y);
    if setFlags then t.(flags := if subtract then SubtractFlags(x, y, size) else AddFlags(x, y, size)) else t
  }

  /// Runs code until it ends or traps.
  function Exec(code: seq<Instruction>, s: State): Execution
    decreases |code|
  {
    if code == [] then Done(s)
    else
      match code[0]
      case Break => Trap
      case Skip(condition, distance) =>
        if !Holds(condition, s.flags) then Exec(code[1..], s)
        else if 1 <= distance <= |code| then Exec(code[distance..], s) else Stuck
      case Jump(distance) => if 1 <= distance <= |code| then Exec(code[distance..], s) else Stuck
      case i => Exec(code[1..], Perform(i, s))
  }

  // ---------------------------------------------------------------- running fragments

  lemma ExecUnfolds(code: seq<Instruction>, s: State)
    requires code != []
    ensures code[0].Break? ==> Exec(code, s) == Trap
    ensures code[0].Skip? ==>
              Exec(code, s) == if !Holds(code[0].condition, s.flags) then Exec(code[1..], s)
                               else if 1 <= code[0].distance <= |code| then Exec(code[code[0].distance..], s) else Stuck
    ensures code[0].Jump? ==>
              Exec(code, s) == if 1 <= code[0].distance <= |code| then Exec(code[code[0].distance..], s) else Stuck
    ensures !code[0].Break? && !code[0].Skip? && !code[0].Jump? ==> Exec(code, s) == Exec(code[1..], Perform(code[0], s))
  {
  }

  lemma ExecFirst(i: Instruction, rest: seq<Instruction>, s: State)
    requires !i.Skip? && !i.Jump? && !i.Break?
    ensures Exec([i] + rest, s) == Exec(rest, Perform(i, s))
  {
    hide Exec, Perform, Holds;
    ExecUnfolds([i] + rest, s);
    assert ([i] + rest)[1..] == rest;
  }

  lemma Behind<T>(first: T, between: seq<T>, rest: seq<T>)
    ensures var code := [first] + between + rest;
            code[0] == first && code[1..] == between + rest && code[1 + |between|..] == rest
  {
  }

  lemma ExecSkip(condition: Condition, between: seq<Instruction>, rest: seq<Instruction>, s: State)
    ensures Exec([Skip(condition, 1 + |between|)] + between + rest, s)
            == if Holds(condition, s.flags) then Exec(rest, s) else Exec(between + rest, s)
  {
    hide Exec, Perform, Holds;
    ExecUnfolds([Skip(condition, 1 + |between|)] + between + rest, s);
    Behind(Skip(condition, 1 + |between|), between, rest);
  }

  function TrapIf(condition: Condition): seq<Instruction> {
    [Skip(Invert(condition), 2), Break]
  }

  lemma ExecTrapIf(condition: Condition, rest: seq<Instruction>, s: State)
    ensures Exec(TrapIf(condition) + rest, s) == if Holds(condition, s.flags) then Trap else Exec(rest, s)
  {
    InvertedConditionIsTheOpposite(condition, s.flags);
    ExecSkip(Invert(condition), [Break], rest, s);
    ExecUnfolds([Break] + rest, s);
    hide Exec, Holds, Perform;
    assert TrapIf(condition) + rest == [Skip(Invert(condition), 1 + |[Break]|)] + [Break] + rest;
    assert ([Break] + rest)[0] == Break;
  }

  // ---------------------------------------------------------------- comparisons

  function CompareRegisters(size: DataSize, left: nat, right: nat): seq<Instruction> {
    [AddSubtractRegister(size, true, true, ZERO_REGISTER, left, right)]
  }

  function CompareImmediate(size: DataSize, left: nat, immediate: nat): seq<Instruction> {
    [AddSubtractImmediate(size, true, true, ZERO_REGISTER, left, immediate)]
  }

  function WithFlags(s: State, f: Flags): State {
    s.(flags := f)
  }

  lemma ExecCompare(size: DataSize, left: nat, right: nat, rest: seq<Instruction>, s: State)
    ensures Exec(CompareRegisters(size, left, right) + rest, s)
            == Exec(rest, WithFlags(s, SubtractFlags(Source(s, left, size), Source(s, right, size), size)))
  {
    ExecFirst(CompareRegisters(size, left, right)[0], rest, s);
  }

  lemma ExecCompareImmediate(size: DataSize, left: nat, immediate: nat, rest: seq<Instruction>, s: State)
    ensures Exec(CompareImmediate(size, left, immediate) + rest, s)
            == Exec(rest, WithFlags(s, SubtractFlags(Source(s, left, size), immediate, size)))
  {
    ExecFirst(CompareImmediate(size, left, immediate)[0], rest, s);
  }

  /// What the conditions mean after a comparison.
  lemma ComparisonMeans(x: int, y: int, size: DataSize)
    requires 0 <= x < Modulus(size) && 0 <= y < Modulus(size)
    ensures var f := SubtractFlags(x, y, size);
            && (Holds(Equal, f) <==> x == y)
            && (Holds(NotEqual, f) <==> x != y)
            && (Holds(CarrySet, f) <==> x >= y)
            && (Holds(UnsignedHigher, f) <==> x > y)
            && (Holds(UnsignedLowerOrSame, f) <==> x <= y)
            && (Holds(SignedLess, f) <==> Signed(x, size) < Signed(y, size))
            && (Holds(SignedGreater, f) <==> Signed(x, size) > Signed(y, size))
  {
    DifferenceWraps(x, y, size);
  }

  lemma DifferenceWraps(x: int, y: int, size: DataSize)
    requires 0 <= x < Modulus(size) && 0 <= y < Modulus(size)
    ensures Low(x - y, size) == if x >= y then x - y else x - y + Modulus(size)
  {
    DivisionIsUnique(x - y, Modulus(size), if x >= y then 0 else -1, if x >= y then x - y else x - y + Modulus(size));
  }

  // ---------------------------------------------------------------- powers of two

  lemma {:induction false} Pow2Add(a: nat, b: nat)
    ensures Pow2(a + b) == Pow2(a) * Pow2(b)
  {
    if b == 0 {
    } else {
      Pow2Add(a, b - 1);
      assert Pow2(a + b) == 2 * Pow2(a + (b - 1));
    }
  }

  lemma {:induction false} Pow2Monotone(a: nat, b: nat)
    requires a <= b
    ensures Pow2(a) <= Pow2(b)
    decreases b
  {
    if a < b { Pow2Monotone(a, b - 1); }
  }

  lemma Pow2Values()
    ensures Pow2(0) == 1 && Pow2(16) == 65536 && Pow2(31) == 0x8000_0000 && Pow2(32) == M32
    ensures Pow2(48) == 0x1_0000_0000_0000 && Pow2(63) == M64 / 2 && Pow2(64) == M64
  {
    assert Pow2(8) == 256;
    Pow2Add(8, 8);
    Pow2Add(16, 16);
    assert Pow2(32) == 2 * Pow2(31);
    Pow2Add(32, 16);
    Pow2Add(32, 32);
    assert Pow2(64) == 2 * Pow2(63);
  }

  // ---------------------------------------------------------------- immediates

  function Parts(size: DataSize): nat {
    if size.Bits32? then 2 else 4
  }

  /// The 16 bits at part `part`, and everything below it.
  function Piece(value: nat, part: nat): (r: nat)
    ensures r < 65536
  {
    value / Pow2(16 * part) % 65536
  }

  function LowParts(value: nat, part: nat): nat {
    QuotientAndRemainder(value, Pow2(16 * part));
    value % Pow2(16 * part)
  }

  function PartMove(destination: nat, value: nat, size: DataSize, part: nat, wroteZero: bool): (i: Instruction)
    ensures !i.Skip? && !i.Jump? && !i.Break?
  {
    if wroteZero then MoveWideKeep(size, destination, Piece(value, part), 16 * part)
    else MoveWideZero(size, destination, Piece(value, part), 16 * part)
  }

  /// The moves that load the 16-bit parts from `shift` on. Zero parts need none, unless all are zero.
  function ImmediateParts(destination: nat, value: nat, size: DataSize, part: nat, wroteZero: bool): seq<Instruction>
    requires part <= Parts(size)
    decreases Parts(size) - part
  {
    if part == Parts(size) then
      if wroteZero then [] else [MoveWideZero(size, destination, 0, 0)]
    else
      var piece := Piece(value, part);
      if piece == 0 then ImmediateParts(destination, value, size, part + 1, wroteZero)
      else
        [PartMove(destination, value, size, part, wroteZero)]
        + ImmediateParts(destination, value, size, part + 1, true)
  }

  function LoadImmediate(destination: nat, value: nat, size: DataSize): seq<Instruction> {
    ImmediateParts(destination, value, size, 0, false)
  }

  /// Splitting off the next part.
  lemma PartsAddUp(value: nat, part: nat)
    ensures LowParts(value, part + 1) == LowParts(value, part) + Piece(value, part) * Pow2(16 * part)
    ensures Piece(value, part) == 0 ==> LowParts(value, part + 1) == LowParts(value, part)
  {
    var p := Pow2(16 * part);
    Pow2Values();
    Pow2Add(16 * part, 16);
    assert 16 * (part + 1) == 16 * part + 16;
    SplitRemainder(value, p);
    hide Pow2;
  }

  lemma SplitRemainder(value: nat, p: nat)
    requires p > 0
    ensures value % (p * 65536) == value % p + value / p % 65536 * p
  {
    var q, r := value / p, value % p + value / p % 65536 * p;
    QuotientAndRemainder(value, p);
    QuotientAndRemainder(q, 65536);
    ProductIsMonotone(q % 65536, 65535, p);
    assert p * q == (p * 65536) * (q / 65536) + q % 65536 * p by {
      assert p * (65536 * (q / 65536) + q % 65536) == p * (65536 * (q / 65536)) + p * (q % 65536);
      assert p * (65536 * (q / 65536)) == (p * 65536) * (q / 65536);
    }
    DivisionIsUnique(value, p * 65536, q / 65536, r);
  }

  lemma LowPartIsSmall(value: nat, part: nat, size: DataSize)
    requires part <= Parts(size)
    ensures 0 <= LowParts(value, part) < Pow2(16 * part) <= Modulus(size)
  {
    Pow2Values();
    Pow2Monotone(16 * part, BitCount(size));
    QuotientAndRemainder(value, Pow2(16 * part));
  }

  lemma PutTwice(s: State, d: nat, size: DataSize, x: int, y: int)
    ensures Put(Put(s, d, size, x), d, size, y) == Put(s, d, size, y)
  {
  }

  lemma {:induction false} ExecImmediateParts(d: nat, value: nat, size: DataSize, part: nat, wroteZero: bool,
                                              rest: seq<Instruction>, s: State)
    requires part <= Parts(size) && d != ZERO_REGISTER
    requires wroteZero ==> d in s.regs && Reg(s, d) == LowParts(value, part)
    requires !wroteZero ==> LowParts(value, part) == 0
    ensures Exec(ImmediateParts(d, value, size, part, wroteZero) + rest, s) == Exec(rest, Put(s, d, size, value))
    decreases Parts(size) - part
  {
    hide *;
    if part == Parts(size) {
      ExecLastPart(d, value, size, wroteZero, rest, s);
    } else if Piece(value, part) == 0 {
      PartsAddUp(value, part);
      NextPart(d, value, size, part, wroteZero, rest);
      ExecImmediateParts(d, value, size, part + 1, wroteZero, rest, s);
    } else {
      var i := PartMove(d, value, size, part, wroteZero);
      NextPart(d, value, size, part, wroteZero, rest);
      ExecFirst(i, ImmediateParts(d, value, size, part + 1, true) + rest, s);
      PieceIsWritten(s, d, value, size, part, wroteZero);
      ExecImmediateParts(d, value, size, part + 1, true, rest, Perform(i, s));
      PutTwice(s, d, size, LowParts(value, part + 1), value);
    }
  }

  lemma NextPart(d: nat, value: nat, size: DataSize, part: nat, wroteZero: bool, rest: seq<Instruction>)
    requires part < Parts(size)
    ensures Piece(value, part) == 0 ==>
              ImmediateParts(d, value, size, part, wroteZero) == ImmediateParts(d, value, size, part + 1, wroteZero)
    ensures Piece(value, part) != 0 ==>
              ImmediateParts(d, value, size, part, wroteZero) + rest
              == [PartMove(d, value, size, part, wroteZero)] + (ImmediateParts(d, value, size, part + 1, true) + rest)
  {
    hide Piece;
  }

  lemma ExecLastPart(d: nat, value: nat, size: DataSize, wroteZero: bool, rest: seq<Instruction>, s: State)
    requires d != ZERO_REGISTER
    requires wroteZero ==> d in s.regs && Reg(s, d) == LowParts(value, Parts(size))
    requires !wroteZero ==> LowParts(value, Parts(size)) == 0
    ensures Exec(ImmediateParts(d, value, size, Parts(size), wroteZero) + rest, s) == Exec(rest, Put(s, d, size, value))
  {
    LastPartIsAll(value, size);
    hide Pow2, Exec, LowParts, Put, Perform;
    if wroteZero {
      assert [] + rest == rest;
      PutAgain(s, d, size, value);
    } else {
      ExecFirst(MoveWideZero(size, d, 0, 0), rest, s);
      ZeroIsPut(d, value, size, s);
    }
  }

  lemma LastPartIsAll(value: nat, size: DataSize)
    ensures LowParts(value, Parts(size)) == Low(value, size) && Low(0, size) == 0
  {
    Pow2Values();
    assert Pow2(16 * (Parts(size))) == Modulus(size);
    hide Pow2;
  }

  lemma PutAgain(s: State, d: nat, size: DataSize, value: nat)
    requires d != ZERO_REGISTER && d in s.regs && Reg(s, d) == Low(value, size)
    ensures Put(s, d, size, value) == s
  {
    assert Put(s, d, size, value).regs == s.regs;
  }

  lemma ZeroIsPut(d: nat, value: nat, size: DataSize, s: State)
    requires Low(value, size) == Low(0, size)
    ensures Perform(MoveWideZero(size, d, 0, 0), s) == Put(s, d, size, value)
  {
    assert Pow2(0) == 1;
    hide Pow2;
  }

  lemma KeepFills(s: State, d: nat, size: DataSize, shift: nat, x: nat, p: nat, piece: nat)
    requires d != ZERO_REGISTER && Pow2(shift) == p && Reg(s, d) == x < p <= Modulus(size)
    ensures Perform(MoveWideKeep(size, d, piece, shift), s) == Put(s, d, size, x + piece * p)
  {
    hide Pow2;
    DivisionIsUnique(x, p, 0, x);
    DivisionIsUnique(x, Modulus(size), 0, x);
    assert Source(s, d, size) == x && x / p % 65536 == 0;
    assert x + (piece - 0) * p == x + piece * p;
  }

  /// A move fills in one part over a register that holds the parts below it.
  lemma PieceIsWritten(s: State, d: nat, value: nat, size: DataSize, part: nat, wroteZero: bool)
    requires part < Parts(size) && d != ZERO_REGISTER
    requires wroteZero ==> Reg(s, d) == LowParts(value, part)
    requires !wroteZero ==> LowParts(value, part) == 0
    ensures Perform(PartMove(d, value, size, part, wroteZero), s) == Put(s, d, size, LowParts(value, part + 1))
    ensures var t := Perform(PartMove(d, value, size, part, wroteZero), s);
            d in t.regs && Reg(t, d) == LowParts(value, part + 1)
  {
    hide Pow2, Piece, LowParts;
    var p, x := Pow2(16 * part), LowParts(value, part);
    PartsAddUp(value, part);
    LowPartIsSmall(value, part, size);
    LowPartIsSmall(value, part + 1, size);
    if wroteZero { KeepFills(s, d, size, 16 * part, x, p, Piece(value, part)); }
    PutReads(s, d, size, LowParts(value, part + 1));
  }

  lemma PutReads(s: State, d: nat, size: DataSize, x: nat)
    requires d != ZERO_REGISTER && x < Modulus(size)
    ensures d in Put(s, d, size, x).regs && Reg(Put(s, d, size, x), d) == x
  {
    DivisionIsUnique(x, Modulus(size), 0, x);
  }

  /// Loading an immediate truncates it to the data size.
  lemma ExecLoadImmediate(d: nat, value: nat, size: DataSize, rest: seq<Instruction>, s: State)
    requires d != ZERO_REGISTER
    ensures Exec(LoadImmediate(d, value, size) + rest, s) == Exec(rest, Put(s, d, size, value))
  {
    ExecImmediateParts(d, value, size, 0, false, rest, s);
  }
}
