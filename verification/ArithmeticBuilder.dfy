/**
 The emitter of checked arithmetic: it appends the sequences of `CheckedArithmetic` step by step.
 */
module ArithmeticBuilder {
  import L = CodeLayout
  import W = CodeWords
  import opened Isa
  import opened CheckedArithmetic

  class Builder {
    var code: seq<Instruction>

    constructor ()
      ensures code == []
    {
      code := [];
    }

    method Append(i: Instruction)
      modifies this
      ensures code == old(code) + [i]
    {
      code := code + [i];
    }

    /// Moves one 16-bit part after another, and a zero if every part is zero.
    method LoadImmediate(destination: nat, value: nat, size: DataSize)
      modifies this
      ensures code == old(code) + Isa.LoadImmediate(destination, value, size)
    {
      var wroteZero, part := false, 0;
      while part < Parts(size)
        invariant part <= Parts(size)
        invariant code + ImmediateParts(destination, value, size, part, wroteZero)
                  == old(code) + Isa.LoadImmediate(destination, value, size)
      {
        ghost var before := code;
        var piece := value / Pow2(16 * part) % 65536;
        if piece != 0 {
          NextPart(destination, value, size, part, wroteZero, []);
          Append(if wroteZero then MoveWideKeep(size, destination, piece, 16 * part)
                 else MoveWideZero(size, destination, piece, 16 * part));
          Regroup(before, [PartMove(destination, value, size, part, wroteZero)],
                  ImmediateParts(destination, value, size, part + 1, true));
          wroteZero := true;
        }
        part := part + 1;
      }
      if !wroteZero { Append(MoveWideZero(size, destination, 0, 0)); }
    }

    method CompareRegisters(size: DataSize, left: nat, right: nat)
      modifies this
      ensures code == old(code) + Isa.CompareRegisters(size, left, right)
    {
      Append(AddSubtractRegister(size, true, true, ZERO_REGISTER, left, right));
    }

    method CompareWithZero(size: DataSize, value: nat)
      modifies this
      ensures code == old(code) + Isa.CompareImmediate(size, value, 0)
    {
      Append(AddSubtractImmediate(size, true, true, ZERO_REGISTER, value, 0));
    }

    method TrapIf(condition: L.Condition)
      modifies this
      ensures code == old(code) + Isa.TrapIf(condition)
    {
      Append(Skip(W.Invert(condition), 2));
      Append(Break);
    }

    method NormalizeInteger(register: nat, size: DataSize, k: Kind)
      modifies this
      ensures code == old(code) + Normalize(register, size, k)
    {
      if k.bits < BitCount(size) { Append(BitfieldExtend(size, k.signed, k.bits, register, register)); }
    }

    method CompareWithImmediate(value: nat, immediate: nat, size: DataSize, scratch: nat)
      modifies this
      ensures code == old(code) + CompareWith(value, immediate, size, scratch)
    {
      LoadImmediate(scratch, immediate, size);
      CompareRegisters(size, value, scratch);
    }

    method EmitRangeCheck(value: nat, size: DataSize, k: Kind, scratch: nat)
      requires 1 <= k.bits <= BitCount(size)
      modifies this
      ensures code == old(code) + RangeCheck(value, size, k, scratch)
    {
      hide CompareWith, Isa.TrapIf, SignedMinimumPattern, Pow2;
      if k.signed {
        CompareWithImmediate(value, SignedMinimumPattern(k.bits, size), size, scratch);
        TrapIf(L.SignedLess);
        CompareWithImmediate(value, Pow2(k.bits - 1) - 1, size, scratch);
        TrapIf(L.SignedGreater);
      } else {
        CompareWithImmediate(value, Pow2(k.bits) - 1, size, scratch);
        TrapIf(L.UnsignedHigher);
      }
    }

    method EmitAddSubtract(b: Binary, subtract: bool)
      requires ValidBinary(b)
      modifies this
      ensures code == old(code) + AddSubtractCode(b, subtract)
    {
      hide RangeCheck, Isa.TrapIf, Normalize;
      Append(AddSubtractRegister(b.size, subtract, b.required, b.destination, b.left, b.right));
      if b.required {
        if b.kind.bits == BitCount(b.size) {
          TrapIf(if b.kind.signed then L.Overflow else if subtract then L.CarryClear else L.CarrySet);
        } else {
          EmitRangeCheck(b.destination, b.size, b.kind, SCRATCH);
        }
      }
      NormalizeInteger(b.destination, b.size, b.kind);
    }

    method EmitMultiply(b: Binary)
      requires ValidBinary(b)
      modifies this
      ensures code == old(code) + MultiplyCode(b)
    {
      hide LongMultiply, WideMultiply, Normalize;
      if b.required {
        EmitCheckedMultiply(b);
      } else {
        Append(MultiplyAdd(b.size, b.destination, b.left, b.right, ZERO_REGISTER, false));
      }
      NormalizeInteger(b.destination, b.size, b.kind);
    }

    method EmitCheckedMultiply(b: Binary)
      requires ValidBinary(b)
      modifies this
      ensures code == old(code) + if b.size.Bits32? then LongMultiply(b) else WideMultiply(b)
    {
      hide RangeCheck, HighHalfCheck;
      if b.size.Bits32? {
        Append(MultiplyLong(b.kind.signed, SCRATCH, b.left, b.right));
        EmitRangeCheck(SCRATCH, Bits64, b.kind, b.destination);
        Append(MoveRegister(b.destination, SCRATCH));
        return;
      }
      Append(MultiplyHigh(b.kind.signed, SCRATCH, b.left, b.right));
      Append(MultiplyAdd(b.size, b.destination, b.left, b.right, ZERO_REGISTER, false));
      if b.kind.signed {
        EmitHighHalfCheck(b);
      } else {
        CompareWithZero(b.size, SCRATCH);
        TrapIf(L.NotEqual);
      }
    }

    /// The distances stand for the labels of the negative case and of the end.
    method EmitHighHalfCheck(b: Binary)
      modifies this
      ensures code == old(code) + HighHalfCheck(b)
    {
      CompareWithZero(b.size, b.destination);
      Append(Skip(L.Minus, 4));
      CompareWithZero(b.size, SCRATCH);
      Append(Skip(L.Equal, 5));
      Append(Break);
      Append(AddSubtractImmediate(b.size, false, true, SCRATCH, SCRATCH, 1));
      Append(Skip(L.Equal, 2));
      Append(Break);
    }

    method EmitDivisionCheck(b: Binary)
      requires ValidBinary(b)
      modifies this
      ensures code == old(code) + DivisionCheck(b)
    {
      hide CompareWith, Isa.TrapIf, SignedMinimumPattern;
      CompareWithZero(b.size, b.right);
      TrapIf(L.Equal);
      if b.kind.signed {
        CompareWithImmediate(b.right, M64 - 1, b.size, SCRATCH);
        Append(Skip(L.NotEqual, 1 + |MinimumTrap(b)|));
        CompareWithImmediate(b.left, SignedMinimumPattern(b.kind.bits, b.size), b.size, SCRATCH);
        TrapIf(L.Equal);
      }
    }

    method EmitDivide(b: Binary)
      requires ValidBinary(b)
      modifies this
      ensures code == old(code) + DivideCode(b)
    {
      hide DivisionCheck, Normalize;
      if b.required { EmitDivisionCheck(b); }
      Append(Divide(b.size, b.destination, b.left, b.right, b.kind.signed));
      NormalizeInteger(b.destination, b.size, b.kind);
    }

    method EmitRemainder(b: Binary)
      requires ValidBinary(b)
      modifies this
      ensures code == old(code) + RemainderCode(b)
    {
      hide DivisionCheck, Normalize;
      if b.required { EmitDivisionCheck(b); }
      Append(Divide(b.size, QUOTIENT, b.left, b.right, b.kind.signed));
      Append(MultiplyAdd(b.size, b.destination, QUOTIENT, b.right, b.left, true));
      NormalizeInteger(b.destination, b.size, b.kind);
    }

    method EmitShift(b: Binary, shift: ShiftKind)
      requires ValidBinary(b)
      modifies this
      ensures code == old(code) + ShiftCode(b, shift)
    {
      hide CompareWith, Isa.TrapIf, Normalize;
      if b.required && !shift.RotateRight? {
        CompareWithImmediate(b.right, b.kind.bits, b.size, SCRATCH);
        TrapIf(L.CarrySet);
      }
      Append(VariableShift(b.size, shift, b.destination, b.left, b.right));
      NormalizeInteger(b.destination, b.size, b.kind);
    }
  }
}
