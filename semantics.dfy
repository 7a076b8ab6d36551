/** What the 4_dz interpreter (4_dz/interpret/Interpret.cpp) does to its
    machine, as functions on values: one function per decoder, the dispatch
    on the opcode byte, and the run over a whole binary file read six bytes
    at a time. The class in interpreter.dfy is proved against these. */
module Semantics {
  import opened Bits

  /** `std::vector<uint32_t> memory(1024)` and `registers(32)`
      (4_dz/interpret/Interpret.h:17-18). */
  const MEMORY_SIZE := 1024
  const REGISTER_COUNT := 32

  const LOAD_CONSTANT := 195
  const MEMORY_READ := 83
  const MEMORY_WRITE := 53
  const BITWISE_OR := 74

  datatype State = State(memory: seq<U32>, registers: seq<U32>)

  predicate Valid(s: State)
  {
    |s.memory| == MEMORY_SIZE && |s.registers| == REGISTER_COUNT
  }

  /** Both vectors start out all zero. */
  function Initial(): (s: State)
    ensures Valid(s)
  {
    State(seq(MEMORY_SIZE, _ => 0), seq(REGISTER_COUNT, _ => 0))
  }

  /** The end of a run: the machine after the last word, or the machine at a
      MEMORY_READ whose address register points past the memory. Reading
      `memory[registers[B]]` there is undefined behaviour in C++; the model
      stops at that word. */
  datatype Outcome =
    | Ok(state: State)
    | ReadOutOfRange(addr: U32, state: State)

  // ---------------------------------------------------------------------------
  // uint32_t arithmetic

  /** `x | y` on two uint32_t values: bit k of the result is set when bit k
      of either is. */
  function Or32(x: U32, y: U32): U32
  {
    var bits := seq(32, k requires 0 <= k => Bit(x, k) || Bit(y, k));
    NumBound(bits);
    Pow2Values();
    Num(bits)
  }

  /** Bitwise meaning of Or32. */
  lemma OrBits(x: U32, y: U32, k: nat)
    requires k < 32
    ensures Bit(Or32(x, y), k) == (Bit(x, k) || Bit(y, k))
  {
    var bits := seq(32, k requires 0 <= k => Bit(x, k) || Bit(y, k));
    BitsOfNum(bits);
    assert BitsOf(Num(bits), 32)[k] == Bit(Num(bits), k);
  }

  /** `x | 0 == x` and `x | x == x`. */
  lemma OrIdentity(x: U32)
    ensures Or32(x, 0) == x && Or32(x, x) == x
  {
    var bits := seq(32, k requires 0 <= k => Bit(x, k) || Bit(0, k));
    forall k | 0 <= k < 32
      ensures bits[k] == Bit(x, k)
    {
      BitZero(k);
    }
    assert bits == BitsOf(x, 32);
    assert seq(32, k requires 0 <= k => Bit(x, k) || Bit(x, k)) == BitsOf(x, 32);
    NumBitsOf(x, 32);
    Pow2Values();
    DivModUnique(x, Pow2(32), 0, x);
  }

  lemma {:induction false} BitZero(k: nat)
    ensures !Bit(0, k)
  {
    if k > 0 {
      BitZero(k - 1);
    }
  }

  /** `registers[D] + C` in `unsigned int`: the sum wraps around at 2^32. */
  function Add32(x: U32, y: U32): (r: U32)
    ensures x + y < 0x1_0000_0000 ==> r == x + y
    ensures x + y >= 0x1_0000_0000 ==> r == x + y - 0x1_0000_0000
  {
    (x + y) % 0x1_0000_0000
  }

  // ---------------------------------------------------------------------------
  // The decoders. Each reads its fields from to_ulong() of the word and does
  // nothing when the opcode byte is not its own.

  /** loadConstantFromCode: `registers[B] = C` with C read as 24 bits. */
  function LoadConstant(s: State, code: seq<bool>): (r: State)
    requires Valid(s)
    ensures Valid(r) && r.memory == s.memory
    ensures Field(code, 0, 8) != LOAD_CONSTANT ==> r == s
  {
    Pow2Values();
    var a, b, c := Field(code, 0, 8), Field(code, 8, 3), Field(code, 11, 24);
    if a != LOAD_CONSTANT then s
    else s.(registers := s.registers[b := c])
  }

  /** memoryReadFromCode: `registers[C] = memory[registers[B]]`. The bounds
      check on B and C never fails for 3-bit fields; an address register
      past the memory is not checked at all. */
  function MemoryRead(s: State, code: seq<bool>): (o: Outcome)
    requires Valid(s)
    ensures Valid(o.state) && o.state.memory == s.memory
    ensures o.ReadOutOfRange? <==>
            Field(code, 0, 8) == MEMORY_READ && s.registers[Field(code, 8, 3)] >= MEMORY_SIZE
    ensures Field(code, 0, 8) != MEMORY_READ ==> o == Ok(s)
  {
    Pow2Values();
    var a, b, c := Field(code, 0, 8), Field(code, 8, 3), Field(code, 11, 3);
    if a != MEMORY_READ then Ok(s)
    else if b >= |s.registers| || c >= |s.memory| then Ok(s)
    else if s.registers[b] >= |s.memory| then ReadOutOfRange(s.registers[b], s)
    else Ok(s.(registers := s.registers[c := s.memory[s.registers[b]]]))
  }

  /** memoryWriteFromCode: `memory[registers[D] + C] = registers[B]`, C read
      as 9 bits; the sum wraps around before the bounds check. */
  function MemoryWrite(s: State, code: seq<bool>): (r: State)
    requires Valid(s)
    ensures Valid(r) && r.registers == s.registers
    ensures Field(code, 0, 8) != MEMORY_WRITE ==> r == s
  {
    Pow2Values();
    var a, b, c, d := Field(code, 0, 8), Field(code, 8, 3), Field(code, 11, 9), Field(code, 20, 3);
    if a != MEMORY_WRITE then s
    else if b >= |s.registers| || d >= |s.registers| || Add32(s.registers[d], c) >= |s.memory| then s
    else s.(memory := s.memory[Add32(s.registers[d], c) := s.registers[b]])
  }

  /** bitwiseOrFromCode: `registers[B] = registers[D] | memory[C]`, C read as
      21 bits; an address past the memory leaves the machine as it is. */
  function BitwiseOr(s: State, code: seq<bool>): (r: State)
    requires Valid(s)
    ensures Valid(r) && r.memory == s.memory
    ensures Field(code, 0, 8) != BITWISE_OR ==> r == s
  {
    Pow2Values();
    var a, b, c, d := Field(code, 0, 8), Field(code, 8, 3), Field(code, 11, 21), Field(code, 38, 3);
    if a != BITWISE_OR then s
    else if b >= |s.registers| || d >= |s.registers| || c >= |s.memory| then s
    else s.(registers := s.registers[b := Or32(s.registers[d], s.memory[c])])
  }

  /** One word of the main loop: the opcode byte picks the decoder; any
      other opcode changes no register and no memory cell. No decoder writes a register above R7,
      and only MEMORY_READ can stop the run. */
  function Step(s: State, code: seq<bool>): (o: Outcome)
    requires Valid(s)
    ensures Valid(o.state)
    ensures o.state.registers[8..] == s.registers[8..]
    ensures o.ReadOutOfRange? ==> Field(code, 0, 8) == MEMORY_READ && o.state == s && o.addr >= MEMORY_SIZE
    ensures Field(code, 0, 8) !in {LOAD_CONSTANT, MEMORY_READ, MEMORY_WRITE, BITWISE_OR} ==> o == Ok(s)
  {
    Pow2Values();
    var a := Field(code, 0, 8);
    if a == LOAD_CONSTANT then Ok(LoadConstant(s, code))
    else if a == MEMORY_READ then MemoryRead(s, code)
    else if a == MEMORY_WRITE then Ok(MemoryWrite(s, code))
    else if a == BITWISE_OR then Ok(BitwiseOr(s, code))
    else Ok(s)
  }

  /** The bytes of the next word: six, or what is left at the end of the file. */
  function Chunk(input: seq<Byte>): nat
  {
    if |input| < WORD_BYTES then |input| else WORD_BYTES
  }

  /** The main loop of the constructor over the whole binary file: while a
      byte is left, read a word (missing bytes of a short last word stay 0)
      and execute it. */
  function Execute(s: State, input: seq<Byte>): (o: Outcome)
    requires Valid(s)
    ensures Valid(o.state)
    ensures o.state.registers[8..] == s.registers[8..]
    decreases |input|
  {
    if input == [] then Ok(s)
    else
      var o := Step(s, FromBytes(input[..Chunk(input)]));
      if o.Ok? then Execute(o.state, input[Chunk(input)..]) else o
  }

  /** saveMemoryToYAML: the (ID, VALUE) entries of the memory cells from
      `start` to `end` inclusive that exist. */
  function Dump(memory: seq<U32>, start: nat, end: nat): seq<(nat, U32)>
    decreases |memory| - start
  {
    if start <= end && start < |memory| then [(start, memory[start])] + Dump(memory, start + 1, end)
    else []
  }

  /** The entries are the cells from `start` up to `end` or the last cell,
      whichever comes first, each with its own index. */
  lemma {:induction false} DumpEntries(memory: seq<U32>, start: nat, end: nat)
    ensures var last := if end < |memory| then end + 1 else |memory|;
            var n := if start < last then last - start else 0;
            |Dump(memory, start, end)| == n &&
            forall k :: 0 <= k < n ==> Dump(memory, start, end)[k] == (start + k, memory[start + k])
    decreases |memory| - start
  {
    if start <= end && start < |memory| {
      var rest := Dump(memory, start + 1, end);
      DumpEntries(memory, start + 1, end);
      assert Dump(memory, start, end) == [(start, memory[start])] + rest;
      forall k | 1 <= k < |rest| + 1
        ensures Dump(memory, start, end)[k] == (start + k, memory[start + k])
      {
        assert rest[k - 1] == (start + 1 + (k - 1), memory[start + 1 + (k - 1)]);
      }
    }
  }
}
