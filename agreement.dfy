/** The assembler and the interpreter of 4_dz side by side: what each
    assembled statement does once the interpreter decodes its word, where the
    two disagree on a field's width, and the run of a whole assembled program
    statement by statement. */
module Agreement {
  import opened Bits
  import opened Assembly
  import opened Semantics

  /** Taking a remainder modulo p after one modulo a multiple of p. */
  lemma ModOfMod(c: nat, p: nat, q: nat)
    requires p > 0 && q > 0
    ensures c % (p * q) == c % p + p * ((c % (p * q)) / p)
  {
    var r := c % (p * q);
    DivModUnique(c, p * q, c / (p * q), r);
    DivModUnique(r, p, r / p, r % p);
    assert c == p * (q * (c / (p * q)) + r / p) + r % p;
    DivModUnique(c, p, q * (c / (p * q)) + r / p, r % p);
  }

  // ---------------------------------------------------------------------------
  // Each assembled statement, decoded

  /** `LOAD_CONSTANT Rb, #c` loads c modulo 2^24 into register b mod 8: the
      assembler stores 26 bits of c, the interpreter reads 24. */
  lemma LoadConstantDecoded(s: State, b: U32, c: U32)
    requires Valid(s)
    ensures Step(s, LoadConstantCode(b, c)) == Ok(s.(registers := s.registers[b % 8 := c % 0x100_0000]))
  {
    var code := LoadConstantCode(b, c);
    LoadConstantLayout(b, c);
    Pow2Values();
    ModOfMod(c, 0x100_0000, 4);
    FieldOf(code, 11, 24, 195 + 0x100 * (b % 8), c % 0x100_0000, (c % 0x400_0000) / 0x100_0000);
  }

  /** The widths disagree: 2^24 survives in the word but loads as 0. */
  lemma LoadConstantWidths(s: State, b: U32, c: U32)
    requires Valid(s) && c == 0x100_0000
    ensures Field(LoadConstantCode(b, c), 11, 26) == c
    ensures Step(s, LoadConstantCode(b, c)) == Ok(s.(registers := s.registers[b % 8 := 0]))
  {
    assert c % 0x400_0000 == c && c % 0x100_0000 == 0;
    LoadConstantDecoded(s, b, c);
    LoadConstantLayout(b, c);
  }

  /** `MEMORY_READ Rc, [Rb]` (encoded with B = b, C = c) copies the cell that
      register b mod 8 points at into register c mod 8, or stops the run when
      that register points past the memory. */
  lemma MemoryReadDecoded(s: State, b: U32, c: U32)
    requires Valid(s)
    ensures var addr := s.registers[b % 8];
            Step(s, MemoryReadCode(b, c)) ==
            if addr >= MEMORY_SIZE then ReadOutOfRange(addr, s)
            else Ok(s.(registers := s.registers[c % 8 := s.memory[addr]]))
  {
    MemoryReadLayout(b, c);
  }

  /** `MEMORY_WRITE [Rd + c], Rb` stores register b mod 8 at register d mod 8
      plus c mod 2^9, the sum taken modulo 2^32; an address past the memory
      changes nothing. */
  lemma MemoryWriteDecoded(s: State, b: U32, c: U32, d: U32)
    requires Valid(s)
    ensures var addr := Add32(s.registers[d % 8], c % 0x200);
            Step(s, MemoryWriteCode(b, c, d)) ==
            Ok(if addr >= MEMORY_SIZE then s else s.(memory := s.memory[addr := s.registers[b % 8]]))
  {
    MemoryWriteLayout(b, c, d);
  }

  /** The address sum wraps: 0xFFFFFFFF + 1 writes cell 0. */
  lemma MemoryWriteWraps(s: State, b: U32, d: U32)
    requires Valid(s) && s.registers[d % 8] == 0xFFFF_FFFF
    ensures Step(s, MemoryWriteCode(b, 1, d)) == Ok(s.(memory := s.memory[0 := s.registers[b % 8]]))
  {
    MemoryWriteDecoded(s, b, 1, d);
  }

  /** `OR Rb, [c] | Rd` sets register b mod 8 to register d mod 8 ORed with
      the cell at c mod 2^21: the assembler stores 27 bits of c, the
      interpreter reads 21. An address past the memory changes nothing. */
  lemma BitwiseOrDecoded(s: State, b: U32, c: U32, d: U32)
    requires Valid(s)
    ensures var addr := c % 0x20_0000;
            Step(s, BitwiseOrCode(b, c, d)) ==
            Ok(if addr >= MEMORY_SIZE then s
               else s.(registers := s.registers[b % 8 := Or32(s.registers[d % 8], s.memory[addr])]))
  {
    var code := BitwiseOrCode(b, c, d);
    BitwiseOrLayout(b, c, d);
    Pow2Values();
    ModOfMod(c, 0x20_0000, 0x40);
    var high := (c % 0x800_0000) / 0x20_0000 + 0x40 * (d % 8);
    assert Num(code) == 74 + 0x100 * (b % 8) + 0x800 * (c % 0x20_0000 + 0x20_0000 * high);
    FieldOf(code, 11, 21, 74 + 0x100 * (b % 8), c % 0x20_0000, high);
  }

  /** The widths disagree: address 2^21 survives in the word but reads cell 0. */
  lemma BitwiseOrWidths(s: State, b: U32, c: U32, d: U32)
    requires Valid(s) && c == 0x20_0000
    ensures Field(BitwiseOrCode(b, c, d), 11, 27) == c
    ensures Step(s, BitwiseOrCode(b, c, d)) ==
            Ok(s.(registers := s.registers[b % 8 := Or32(s.registers[d % 8], s.memory[0])]))
  {
    assert c % 0x800_0000 == c && c % 0x20_0000 == 0;
    BitwiseOrDecoded(s, b, c, d);
    BitwiseOrLayout(b, c, d);
  }

  // ---------------------------------------------------------------------------
  // Whole programs

  /** A word written by writeBitsetToBinaryFile is read back whole by the
      interpreter's loop and executed before the rest of the file. */
  lemma ExecuteWord(s: State, code: seq<bool>, rest: seq<Byte>)
    requires Valid(s) && |code| == WORD_BITS
    ensures var o := Step(s, code);
            Execute(s, ToBytes(code) + rest) == if o.Ok? then Execute(o.state, rest) else o
  {
    var input := ToBytes(code) + rest;
    assert input[..Chunk(input)] == ToBytes(code);
    assert input[Chunk(input)..] == rest;
    BytesRoundTrip(code);
  }

  /** A short last word runs as if padded with zero bytes to six. */
  lemma ShortLastWord(s: State, bs: seq<Byte>)
    requires Valid(s) && 0 < |bs| < WORD_BYTES
    ensures Execute(s, bs) == Execute(s, bs + seq(WORD_BYTES - |bs|, _ => 0))
  {
    ShortWordRuns(s, bs);
    PaddedWordRuns(s, bs);
  }

  /** The run of a file shorter than one word: that word alone. */
  lemma ShortWordRuns(s: State, bs: seq<Byte>)
    requires Valid(s) && 0 < |bs| < WORD_BYTES
    ensures var o := Step(s, FromBytes(bs));
            Execute(s, bs) == if o.Ok? then Execute(o.state, []) else o
  {
    assert bs[..Chunk(bs)] == bs;
    assert bs[Chunk(bs)..] == [];
  }

  /** The same word padded with zero bytes runs the same way. */
  lemma PaddedWordRuns(s: State, bs: seq<Byte>)
    requires Valid(s) && |bs| < WORD_BYTES
    ensures var o := Step(s, FromBytes(bs));
            Execute(s, bs + seq(WORD_BYTES - |bs|, _ => 0)) == if o.Ok? then Execute(o.state, []) else o
  {
    var code := FromBytes(bs);
    ReadBytesBack(bs);
    assert ToBytes(code) + [] == bs + seq(WORD_BYTES - |bs|, _ => 0);
    ExecuteWord(s, code, []);
  }

  /** What an assembly program does when its binary runs: the statements in
      order, each encoded word executed, until a rejected statement or a
      read out of range. */
  function RunProgram(s: State, lines: seq<Line>): (o: Outcome)
    requires Valid(s)
    ensures Valid(o.state)
    decreases |lines|
  {
    if lines == [] then Ok(s)
    else
      match Assess(lines[0])
      case Emit(code) =>
        var o := Step(s, code);
        if o.Ok? then RunProgram(o.state, lines[1..]) else o
      case Skip => RunProgram(s, lines[1..])
      case Reject => Ok(s)
  }

  /** Assembling a program and interpreting its binary does what its
      statements say, one by one. */
  lemma {:induction false} AssembleThenExecute(s: State, lines: seq<Line>)
    requires Valid(s)
    ensures Execute(s, Output(lines)) == RunProgram(s, lines)
    decreases |lines|
  {
    if lines != [] {
      match Assess(lines[0])
      case Emit(code) =>
        assert |code| == WORD_BITS by {
          match lines[0]
          case LoadConstantLine(_, _, _, _) =>
          case MemoryReadLine(_, _, _, _) =>
          case MemoryWriteLine(_, _, _, _, _, _, _) =>
          case OrLine(_, _, _, _, _, _, _) =>
        }
        ExecuteWord(s, code, Output(lines[1..]));
        var o := Step(s, code);
        if o.Ok? {
          AssembleThenExecute(o.state, lines[1..]);
        }
      case Skip =>
        AssembleThenExecute(s, lines[1..]);
      case Reject =>
    }
  }
}
