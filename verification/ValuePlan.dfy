/// How a function's values are represented and where each one lives.
module ValuePlan {
  import opened Results

  datatype Representation = Stored(size: nat, alignment: nat) | Completion | Diverging

  /// A memory value has a frame object unless frame planning left it out.
  datatype Storage =
    | Omitted
    | Direct(registers: seq<nat>)
    | Floating(register: nat, bytes: nat)
    | Memory(size: nat, home: Option<nat>)

  datatype Body = Body(representations: seq<Representation>, storage: seq<Storage>)
}
