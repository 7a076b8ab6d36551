/** The 4_dz interpreter object (4_dz/interpret/Interpret.h,
    4_dz/interpret/Interpret.cpp): memory and registers are fixed-size
    vectors of uint32_t updated in place by the decoders; the constructor
    runs the whole binary file and then writes the requested memory range to
    the result file. The binary file arrives as its bytes; the result file is
    the list of (ID, VALUE) entries written to it. */
module Interpreter {
  import opened Bits
  import opened Semantics

  class Interpret {
    const memory: array<U32>
    const registers: array<U32>
    /** The entries saveMemoryToYAML wrote to the result file. */
    var result: seq<(nat, U32)>

    predicate Valid()
    {
      memory.Length == MEMORY_SIZE && registers.Length == REGISTER_COUNT && memory != registers
    }

    /** The machine as a value. */
    function Machine(): State
      reads memory, registers
    {
      State(memory[..], registers[..])
    }

    /** Interpret::Interpret: both vectors start zeroed, every word of the
        binary file is executed in order, then cells start..end go to the
        result file. */
    constructor (input: seq<Byte>, start: nat, end: nat)
      ensures Valid() && fresh(memory) && fresh(registers)
      ensures Machine() == Execute(Initial(), input).state
      ensures result == Dump(memory[..], start, end)
    {
      memory := new U32[MEMORY_SIZE](_ => 0);
      registers := new U32[REGISTER_COUNT](_ => 0);
      result := [];
      new;
      assert Machine() == Initial();
      Run(input);
      result := SaveMemoryToYaml(start, end);
    }

    /** The `while (infile.peek() != EOF)` loop of the constructor: read a
        word, dispatch on its opcode byte. A MEMORY_READ whose address
        register points past the memory ends the run. */
    method Run(input: seq<Byte>)
      requires Valid()
      modifies memory, registers
      ensures Machine() == Execute(old(Machine()), input).state
    {
      var pos := 0;
      while pos < |input|
        invariant 0 <= pos <= |input|
        invariant Execute(Machine(), input[pos..]) == Execute(old(Machine()), input)
        decreases |input| - pos
      {
        ghost var before := Machine();
        var code, next := ReadBitset(input, pos);
        assert input[pos..][..Chunk(input[pos..])] == input[pos..next];
        assert input[pos..][Chunk(input[pos..])..] == input[next..];
        var a := Field(code, 0, 8);
        if a == LOAD_CONSTANT {
          LoadConstantFromCode(code);
        } else if a == MEMORY_READ {
          var inRange := MemoryReadFromCode(code);
          if !inRange {
            return;
          }
        } else if a == MEMORY_WRITE {
          MemoryWriteFromCode(code);
        } else if a == BITWISE_OR {
          BitwiseOrFromCode(code);
        }
        assert Machine() == Step(before, code).state;
        pos := next;
      }
    }

    /** readBitsetFromBinaryFile<48>: up to six bytes from position `pos`,
        byte i ORed into bits 8i..8i+7; a read past the end leaves its bits
        0. */
    method ReadBitset(input: seq<Byte>, pos: nat) returns (code: seq<bool>, next: nat)
      requires pos <= |input|
      ensures next == pos + Chunk(input[pos..])
      ensures code == FromBytes(input[pos..next])
    {
      code := Zeros(WORD_BITS);
      next := pos;
      var i := 0;
      while i < WORD_BITS / 8
        invariant 0 <= i <= WORD_BYTES
        invariant next == if pos + i < |input| then pos + i else |input|
        invariant code == FromBytes(input[pos..next])
      {
        if next < |input| {
          OrByteStep(input[pos..next], input[next]);
          assert input[pos..next + 1] == input[pos..next] + [input[next]];
          code := OrByte(code, i, input[next]);
          next := next + 1;
        }
        i := i + 1;
      }
    }

    /** loadConstantFromCode. */
    method LoadConstantFromCode(code: seq<bool>)
      requires Valid()
      modifies registers
      ensures Machine() == LoadConstant(old(Machine()), code)
    {
      Pow2Values();
      var a, b, c := Field(code, 0, 8), Field(code, 8, 3), Field(code, 11, 24);
      if a != LOAD_CONSTANT {
        return;
      }
      registers[b] := c;
    }

    /** memoryReadFromCode. `inRange` is false when the address register
        points past the memory, where the source reads out of bounds. */
    method MemoryReadFromCode(code: seq<bool>) returns (inRange: bool)
      requires Valid()
      modifies registers
      ensures var o := MemoryRead(old(Machine()), code);
              inRange == o.Ok? && Machine() == o.state
    {
      var a, b, c := Field(code, 0, 8), Field(code, 8, 3), Field(code, 11, 3);
      inRange := true;
      if a != MEMORY_READ {
        return;
      }
      if b >= registers.Length || c >= memory.Length {
        return;
      }
      if registers[b] >= memory.Length {
        inRange := false;
        return;
      }
      registers[c] := memory[registers[b]];
    }

    /** memoryWriteFromCode. */
    method MemoryWriteFromCode(code: seq<bool>)
      requires Valid()
      modifies memory
      ensures Machine() == MemoryWrite(old(Machine()), code)
    {
      var a, b, c, d := Field(code, 0, 8), Field(code, 8, 3), Field(code, 11, 9), Field(code, 20, 3);
      if a != MEMORY_WRITE {
        return;
      }
      if b >= registers.Length || d >= registers.Length || Add32(registers[d], c) >= memory.Length {
        return;
      }
      memory[Add32(registers[d], c)] := registers[b];
    }

    /** bitwiseOrFromCode. */
    method BitwiseOrFromCode(code: seq<bool>)
      requires Valid()
      modifies registers
      ensures Machine() == BitwiseOr(old(Machine()), code)
    {
      var a, b, c, d := Field(code, 0, 8), Field(code, 8, 3), Field(code, 11, 21), Field(code, 38, 3);
      if a != BITWISE_OR {
        return;
      }
      if b >= registers.Length || d >= registers.Length || c >= memory.Length {
        return;
      }
      registers[b] := Or32(registers[d], memory[c]);
    }

    /** saveMemoryToYAML: one entry per cell from `start` while the index is
        at most `end` and inside the memory. */
    method SaveMemoryToYaml(start: nat, end: nat) returns (entries: seq<(nat, U32)>)
      ensures entries == Dump(memory[..], start, end)
    {
      entries := [];
      var i := start;
      while i <= end && i < memory.Length
        invariant start <= i
        invariant entries + Dump(memory[..], i, end) == Dump(memory[..], start, end)
        decreases memory.Length - i
      {
        entries := entries + [(i, memory[i])];
        i := i + 1;
      }
    }
  }
}
