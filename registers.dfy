/** The register file of a genetic-programming agent (GPAgentsRegisters.hpp):
    a fixed number of size_t registers, written and read by index with a
    bounds check. The vector never changes size after construction, so it is
    an array here. */
module Registers {
  import opened Wrappers

  /** The register count the constructor uses when its caller gives none. */
  const DEFAULT_REGISTERS: nat := 16

  class GPAgentRegisters {
    const registers: array<nat>

    /** GPAgentRegisters(numRegisters): that many registers, each 0. */
    constructor (numRegisters: nat)
      ensures registers.Length == numRegisters && fresh(registers)
      ensures forall i :: 0 <= i < numRegisters ==> registers[i] == 0
    {
      registers := new nat[numRegisters](_ => 0);
    }

    /** setRegister: an index past the end is refused and nothing changes;
        otherwise that one register takes the value. */
    method SetRegister(index: nat, value: nat) returns (ok: bool)
      modifies registers
      ensures ok <==> index < registers.Length
      ensures ok ==> registers[..] == old(registers[..])[index := value]
      ensures !ok ==> registers[..] == old(registers[..])
      ensures GetRegister(index) == if ok then Some(value) else None
    {
      if index >= registers.Length {
        return false;
      }
      registers[index] := value;
      ok := true;
    }

    /** getRegister: the stored value, or nothing for an index past the end. */
    function GetRegister(index: nat): (r: Option<nat>)
      reads registers
      ensures r.Some? <==> index < registers.Length
      ensures r.Some? ==> r.value == registers[index]
    {
      if index >= registers.Length then None else Some(registers[index])
    }

    /** getNumRegisters and size: the number of registers. */
    function GetNumRegisters(): (n: nat)
      ensures n == registers.Length
    {
      registers.Length
    }
  }
}
