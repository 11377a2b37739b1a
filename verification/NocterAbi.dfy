/// The role of each general register in the Nocter ABI.
module NocterAbi {
  import opened Results

  const ARGUMENT_REGISTERS: nat := 8
  const FLOATING_ARGUMENT_REGISTERS: nat := 8
  const INDIRECT_RESULT: nat := 8

  datatype Role =
    | ArgumentAndResult | IndirectResult | AllocationContext | ProcessContext | CallerSaved
    | CompilerScratch | Reserved | CalleeSaved | FramePointer | Link

  function RoleOf(r: nat): Role
    requires r <= 30
  {
    if r < ARGUMENT_REGISTERS then ArgumentAndResult
    else if r == INDIRECT_RESULT then IndirectResult
    else if r == 9 then AllocationContext
    else if r == 10 then ProcessContext
    else if r <= 14 then CallerSaved
    else if r <= 17 then CompilerScratch
    else if r == 18 then Reserved
    else if r <= 28 then CalleeSaved
    else if r == 29 then FramePointer
    else Link
  }

  /// Registers that virtual registers may live in.
  predicate Allocatable(r: nat) {
    r <= 30 && (RoleOf(r).CallerSaved? || RoleOf(r).CalleeSaved?)
  }

  predicate FloatingAllocatable(r: nat) {
    16 <= r <= 29
  }

  function ArgumentRegister(index: nat): Option<nat> {
    if index < ARGUMENT_REGISTERS then Some(index) else None
  }

  function FloatingArgumentRegister(index: nat): Option<nat> {
    if index < FLOATING_ARGUMENT_REGISTERS then Some(index) else None
  }

  function CompilerScratchRegister(index: nat): Option<nat> {
    match index
    case 0 => Some(16)
    case 1 => Some(17)
    case 2 => Some(15)
    case _ => None
  }

  /// A virtual register is never an argument register, a scratch register, or a fixed context.
  lemma AllocatableRegistersAreSeparate(r: nat, index: nat)
    requires Allocatable(r)
    ensures ArgumentRegister(index) != Some(r) && CompilerScratchRegister(index) != Some(r)
    ensures r != INDIRECT_RESULT && r != 9 && r != 10 && r != 18 && r < 29
  {
  }
}
