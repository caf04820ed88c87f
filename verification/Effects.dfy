/** Effects of instructions and the step-by-step machine. */
module Effects {
  import opened Words
  import opened Exprs

  datatype Effect =
    | WriteRegister(guard: Expr, register: Expr, value: Expr)
    | WriteMemory(guard: Expr, address: Expr, value: Expr, width: nat)
  {
    function Destination(): Expr { if WriteRegister? then register else address }
  }

  type RegisterWrite = (nat, Word)
  type MemoryWrite = ((nat, nat), Word)

  /** Inserts pairs in order; later pairs win. */
  function InsertAll<K, V>(m: map<K, V>, writes: seq<(K, V)>): map<K, V>
  {
    if writes == [] then m
    else
      var last := writes[|writes| - 1];
      InsertAll(m, writes[..|writes| - 1])[last.0 := last.1]
  }

  /** A guard that has no value, or the value zero, blocks its write. */
  predicate Fires(guard: Expr, s: MachineState)
  {
    Eval(guard, s).Some? && Eval(guard, s).value.value != 0
  }

  function ByteOf(value: Word, index: nat): Word
  {
    Word((value.value / Pow2(8 * index)) % Pow2(8), 8)
  }

  /** The first `count` byte writes of a little-endian store. */
  function ByteWrites(address: Word, value: Word, count: nat): seq<MemoryWrite>
  {
    if count == 0 then []
    else ByteWrites(address, value, count - 1) + [((ByteAddress(address, count - 1), 8), ByteOf(value, count - 1))]
  }

  /** A single-byte store keeps its address; wider stores are split into bytes. */
  function StoreWrites(address: Word, value: Word, width: nat): seq<MemoryWrite>
  {
    if width == 8 then [((address.value, 8), Word(value.value % Pow2(8), 8))]
    else ByteWrites(address, value, width / 8)
  }

  /** The register writes of a list of effects, all evaluated in one state. */
  function RegisterWrites(effects: seq<Effect>, s: MachineState): seq<RegisterWrite>
  {
    if effects == [] then []
    else
      var earlier, e := RegisterWrites(effects[..|effects| - 1], s), effects[|effects| - 1];
      if e.WriteRegister? && Fires(e.guard, s) && Eval(e.register, s).Some? && Eval(e.value, s).Some?
      then earlier + [(Eval(e.register, s).value.value, Eval(e.value, s).value)]
      else earlier
  }

  function MemoryWrites(effects: seq<Effect>, s: MachineState): seq<MemoryWrite>
  {
    if effects == [] then []
    else
      var earlier, e := MemoryWrites(effects[..|effects| - 1], s), effects[|effects| - 1];
      if e.WriteMemory? && Fires(e.guard, s) && Eval(e.address, s).Some? && Eval(e.value, s).Some?
      then earlier + StoreWrites(Eval(e.address, s).value, Eval(e.value, s).value, e.width)
      else earlier
  }

  /** One simultaneous update: everything is read in `s` before anything is written. */
  function Update(effects: seq<Effect>, s: MachineState): MachineState
  {
    MachineState(InsertAll(s.registers, RegisterWrites(effects, s)), InsertAll(s.memory, MemoryWrites(effects, s)))
  }

  /** The program run instruction by instruction. */
  function Run(program: seq<seq<Effect>>, s: MachineState): MachineState
  {
    if program == [] then s
    else Update(program[|program| - 1], Run(program[..|program| - 1], s))
  }

  predicate ByteAligned(program: seq<seq<Effect>>)
  {
    forall i, j | 0 <= i < |program| && 0 <= j < |program[i]| ::
      program[i][j].WriteMemory? ==> program[i][j].width % 8 == 0
  }

  lemma InsertAllConcat<K, V>(m: map<K, V>, a: seq<(K, V)>, b: seq<(K, V)>)
    ensures InsertAll(m, a + b) == InsertAll(InsertAll(m, a), b)
  {
    if b == [] {
      assert a + b == a;
    } else {
      assert (a + b)[..|a + b| - 1] == a + b[..|b| - 1];
      InsertAllConcat(m, a, b[..|b| - 1]);
    }
  }

  // ----- the machine as a program -----

  /** Byte writes of one store, collected in a loop. */
  method CollectMemoryWrites(writes: seq<MemoryWrite>, address: Word, value: Word, width: nat)
    returns (all: seq<MemoryWrite>)
    requires width % 8 == 0
    ensures all == writes + StoreWrites(address, value, width)
  {
    if width == 8 {
      all := writes + [((address.value, 8), Word(value.value % Pow2(8), 8))];
      return;
    }
    all := writes;
    for index := 0 to width / 8
      invariant all == writes + ByteWrites(address, value, index)
    {
      all := all + [((ByteAddress(address, index), 8), ByteOf(value, index))];
    }
  }

  /** The machine state the interpreter updates in place. */
  class Machine {
    var registers: map<nat, Word>
    var memory: map<(nat, nat), Word>

    constructor (s: MachineState)
      ensures State() == s
    {
      registers, memory := s.registers, s.memory;
    }

    ghost function State(): MachineState
      reads this
    {
      MachineState(registers, memory)
    }

    method InsertWrites(registerWrites: seq<RegisterWrite>, memoryWrites: seq<MemoryWrite>)
      modifies this
      ensures State() == MachineState(InsertAll(old(registers), registerWrites), InsertAll(old(memory), memoryWrites))
    {
      for i := 0 to |registerWrites|
        invariant registers == InsertAll(old(registers), registerWrites[..i]) && memory == old(memory)
      {
        assert registerWrites[..i + 1][..i] == registerWrites[..i];
        registers := registers[registerWrites[i].0 := registerWrites[i].1];
      }
      assert registerWrites[..|registerWrites|] == registerWrites;
      for i := 0 to |memoryWrites|
        invariant registers == InsertAll(old(registers), registerWrites)
        invariant memory == InsertAll(old(memory), memoryWrites[..i])
      {
        assert memoryWrites[..i + 1][..i] == memoryWrites[..i];
        memory := memory[memoryWrites[i].0 := memoryWrites[i].1];
      }
      assert memoryWrites[..|memoryWrites|] == memoryWrites;
    }

    /** Executes one instruction: all reads happen before the writes are inserted. */
    method Step(effects: seq<Effect>)
      requires forall j | 0 <= j < |effects| :: effects[j].WriteMemory? ==> effects[j].width % 8 == 0
      modifies this
      ensures State() == Update(effects, old(State()))
    {
      var current := MachineState(registers, memory);
      var registerWrites: seq<RegisterWrite>, memoryWrites: seq<MemoryWrite> := [], [];
      for i := 0 to |effects|
        invariant registerWrites == RegisterWrites(effects[..i], current)
        invariant memoryWrites == MemoryWrites(effects[..i], current)
        invariant current == old(State()) && State() == current
      {
        assert effects[..i + 1][..i] == effects[..i];
        match effects[i] {
          case WriteRegister(guard, register, value) =>
            if Fires(guard, current) {
              var r, v := Eval(register, current), Eval(value, current);
              if r.Some? && v.Some? {
                registerWrites := registerWrites + [(r.value.value, v.value)];
              }
            }
          case WriteMemory(guard, address, value, width) =>
            if Fires(guard, current) {
              var a, v := Eval(address, current), Eval(value, current);
              if a.Some? && v.Some? {
                memoryWrites := CollectMemoryWrites(memoryWrites, a.value, v.value, width);
              }
            }
        }
      }
      assert effects[..|effects|] == effects;
      InsertWrites(registerWrites, memoryWrites);
    }

    method Execute(program: seq<seq<Effect>>)
      requires ByteAligned(program)
      modifies this
      ensures State() == Run(program, old(State()))
    {
      for i := 0 to |program|
        invariant State() == Run(program[..i], old(State()))
      {
        assert program[..i + 1][..i] == program[..i];
        Step(program[i]);
      }
      assert program[..|program|] == program;
    }
  }
}
