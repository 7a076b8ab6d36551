/** The 4_dz assembler (4_dz/assemble/Assemble.cpp): four encoders that pack
    an opcode and operand fields into a `std::bitset<48>` bit by bit and
    append its six bytes to the output stream, and the statement loop of the
    constructor with its operand shape checks. Words arrive already split and
    the numbers `std::stoi` would read from them arrive already converted to
    `unsigned int`. */
module Assembly {
  import opened Bits

  // ---------------------------------------------------------------------------
  // The instruction words

  /** LOAD_CONSTANT: opcode 195 in bits 0-7, B in bits 8-10, C in bits 11-36. */
  function LoadConstantCode(b: U32, c: U32): (code: seq<bool>)
    ensures |code| == WORD_BITS
  {
    BitsOf(195, 8) + BitsOf(b, 3) + BitsOf(c, 26) + Zeros(11)
  }

  /** MEMORY_READ: opcode 83 in bits 0-7, B in bits 8-10, C in bits 11-13. */
  function MemoryReadCode(b: U32, c: U32): (code: seq<bool>)
    ensures |code| == WORD_BITS
  {
    BitsOf(83, 8) + BitsOf(b, 3) + BitsOf(c, 3) + Zeros(34)
  }

  /** MEMORY_WRITE: opcode 53 in bits 0-7, B in bits 8-10, C in bits 11-19,
      D in bits 20-22. */
  function MemoryWriteCode(b: U32, c: U32, d: U32): (code: seq<bool>)
    ensures |code| == WORD_BITS
  {
    BitsOf(53, 8) + BitsOf(b, 3) + BitsOf(c, 9) + BitsOf(d, 3) + Zeros(25)
  }

  /** OR: opcode 74 in bits 0-7, B in bits 8-10, C in bits 11-37, D in bits 38-40. */
  function BitwiseOrCode(b: U32, c: U32, d: U32): (code: seq<bool>)
    ensures |code| == WORD_BITS
  {
    BitsOf(74, 8) + BitsOf(b, 3) + BitsOf(c, 27) + BitsOf(d, 3) + Zeros(7)
  }

  // ---------------------------------------------------------------------------
  // Layout of each word, as the number to_ulong() gives and field by field

  lemma LoadConstantLayout(b: U32, c: U32)
    ensures Num(LoadConstantCode(b, c)) == 195 + 0x100 * (b % 8) + 0x800 * (c % 0x400_0000)
    ensures Field(LoadConstantCode(b, c), 0, 8) == 195
    ensures Field(LoadConstantCode(b, c), 8, 3) == b % 8
    ensures Field(LoadConstantCode(b, c), 11, 26) == c % 0x400_0000
  {
    var code := LoadConstantCode(b, c);
    var p0, p1, p2 := BitsOf(195, 8), BitsOf(b, 3), BitsOf(c, 26);
    Pow2Values();
    NumOpcode(195, 8);
    NumNext(p0, b, 3);
    NumNext(p0 + p1, c, 26);
    NumPadded(p0 + p1 + p2, 11);
    var lo, bb, cc := 195, b % 8, c % 0x400_0000;
    FieldOf(code, 0, 8, 0, lo, bb + 8 * cc);
    FieldOf(code, 8, 3, lo, bb, cc);
    FieldOf(code, 11, 26, lo + 0x100 * bb, cc, 0);
  }

  lemma MemoryReadLayout(b: U32, c: U32)
    ensures Num(MemoryReadCode(b, c)) == 83 + 0x100 * (b % 8) + 0x800 * (c % 8)
    ensures Field(MemoryReadCode(b, c), 0, 8) == 83
    ensures Field(MemoryReadCode(b, c), 8, 3) == b % 8
    ensures Field(MemoryReadCode(b, c), 11, 3) == c % 8
  {
    var code := MemoryReadCode(b, c);
    var p0, p1, p2 := BitsOf(83, 8), BitsOf(b, 3), BitsOf(c, 3);
    Pow2Values();
    NumOpcode(83, 8);
    NumNext(p0, b, 3);
    NumNext(p0 + p1, c, 3);
    NumPadded(p0 + p1 + p2, 34);
    var lo, bb, cc := 83, b % 8, c % 8;
    FieldOf(code, 0, 8, 0, lo, bb + 8 * cc);
    FieldOf(code, 8, 3, lo, bb, cc);
    FieldOf(code, 11, 3, lo + 0x100 * bb, cc, 0);
  }

  lemma MemoryWriteLayout(b: U32, c: U32, d: U32)
    ensures Num(MemoryWriteCode(b, c, d)) == 53 + 0x100 * (b % 8) + 0x800 * (c % 0x200) + 0x10_0000 * (d % 8)
    ensures Field(MemoryWriteCode(b, c, d), 0, 8) == 53
    ensures Field(MemoryWriteCode(b, c, d), 8, 3) == b % 8
    ensures Field(MemoryWriteCode(b, c, d), 11, 9) == c % 0x200
    ensures Field(MemoryWriteCode(b, c, d), 20, 3) == d % 8
  {
    var code := MemoryWriteCode(b, c, d);
    var p0, p1, p2, p3 := BitsOf(53, 8), BitsOf(b, 3), BitsOf(c, 9), BitsOf(d, 3);
    Pow2Values();
    NumOpcode(53, 8);
    NumNext(p0, b, 3);
    NumNext(p0 + p1, c, 9);
    NumNext(p0 + p1 + p2, d, 3);
    NumPadded(p0 + p1 + p2 + p3, 25);
    var lo, bb, cc, dd := 53, b % 8, c % 0x200, d % 8;
    FieldOf(code, 0, 8, 0, lo, bb + 8 * cc + 0x1000 * dd);
    FieldOf(code, 8, 3, lo, bb, cc + 0x200 * dd);
    FieldOf(code, 11, 9, lo + 0x100 * bb, cc, dd);
    FieldOf(code, 20, 3, lo + 0x100 * bb + 0x800 * cc, dd, 0);
  }

  lemma BitwiseOrLayout(b: U32, c: U32, d: U32)
    ensures Num(BitwiseOrCode(b, c, d)) == 74 + 0x100 * (b % 8) + 0x800 * (c % 0x800_0000) + 0x40_0000_0000 * (d % 8)
    ensures Field(BitwiseOrCode(b, c, d), 0, 8) == 74
    ensures Field(BitwiseOrCode(b, c, d), 8, 3) == b % 8
    ensures Field(BitwiseOrCode(b, c, d), 11, 27) == c % 0x800_0000
    ensures Field(BitwiseOrCode(b, c, d), 38, 3) == d % 8
  {
    var code := BitwiseOrCode(b, c, d);
    var p0, p1, p2, p3 := BitsOf(74, 8), BitsOf(b, 3), BitsOf(c, 27), BitsOf(d, 3);
    Pow2Values();
    NumOpcode(74, 8);
    NumNext(p0, b, 3);
    NumNext(p0 + p1, c, 27);
    NumNext(p0 + p1 + p2, d, 3);
    NumPadded(p0 + p1 + p2 + p3, 7);
    var lo, bb, cc, dd := 74, b % 8, c % 0x800_0000, d % 8;
    FieldOf(code, 0, 8, 0, lo, bb + 8 * cc + 0x4000_0000 * dd);
    FieldOf(code, 8, 3, lo, bb, cc + 0x800_0000 * dd);
    FieldOf(code, 11, 27, lo + 0x100 * bb, cc, dd);
    FieldOf(code, 38, 3, lo + 0x100 * bb + 0x800 * cc, dd, 0);
  }

  /** An opcode below 2^w in w bits stands for itself. */
  lemma NumOpcode(a: nat, w: nat)
    requires a < Pow2(w)
    ensures Num(BitsOf(a, w)) == a
  {
    NumBitsOf(a, w);
    DivModUnique(a, Pow2(w), 0, a);
  }

  /** Appending the low w bits of x adds x mod 2^w above the bits so far. */
  lemma NumNext(s: seq<bool>, x: nat, w: nat)
    ensures Num(s + BitsOf(x, w)) == Num(s) + Pow2(|s|) * (x % Pow2(w))
  {
    NumAppend(s, BitsOf(x, w));
    NumBitsOf(x, w);
  }

  /** Zero padding adds nothing. */
  lemma NumPadded(s: seq<bool>, w: nat)
    ensures Num(s + Zeros(w)) == Num(s)
  {
    NumAppend(s, Zeros(w));
    NumZeros(w);
  }

  /** A word whose number is low + 2^lo * (x + 2^width * high), with low below
      2^lo and x below 2^width, holds x in the field at lo of that width. */
  lemma FieldOf(code: seq<bool>, lo: nat, width: nat, low: nat, x: nat, high: nat)
    requires low < Pow2(lo) && x < Pow2(width)
    requires Num(code) == low + Pow2(lo) * (x + Pow2(width) * high)
    ensures Field(code, lo, width) == x
  {
    DivModUnique(Num(code), Pow2(lo), x + Pow2(width) * high, low);
    DivModUnique(x + Pow2(width) * high, Pow2(width), high, x);
  }

  // ---------------------------------------------------------------------------
  // The statements of an assembly program

  /** `s[i]` on a std::string: the character, or NUL at the end. An index past
      the end (`reg[reg.size() - 1]` on an empty word) is undefined behaviour in
      C++; it reads NUL here, which fails every check it takes part in. */
  function CharAt(s: string, i: int): char
  {
    if 0 <= i < |s| then s[i] else '\0'
  }

  /** One statement: the mnemonic with the words `infile >>` extracted after it,
      and the numbers `std::stoi` reads from those words, named after the
      variables they are stored in. A word that is no mnemonic is skipped. */
  datatype Line =
    | LoadConstantLine(reg: string, operand: string, regAddr: U32, value: U32)
    | MemoryReadLine(reg: string, operand: string, regAddr: U32, addr: U32)
    | MemoryWriteLine(operand: string, plus: string, shift: string, reg: string,
                      regAddr: U32, offset: U32, value: U32)
    | OrLine(reg: string, operand: string, plus: string, shift: string,
             regAddr: U32, addr: U32, offset: U32)
    | Other(word: string)

  /** `LOAD_CONSTANT Rb, #c`: the register word ends in `,` and starts with
      `R`, the operand starts with `#`. */
  predicate LoadConstantShape(reg: string, operand: string)
  {
    CharAt(reg, |reg| - 1) == ',' && CharAt(reg, 0) == 'R' && CharAt(operand, 0) == '#'
  }

  /** `MEMORY_READ Rc, [Rb]`: the register word ends in `,` and starts with
      `R`, the operand is bracketed. */
  predicate MemoryReadShape(reg: string, operand: string)
  {
    CharAt(reg, |reg| - 1) == ',' && CharAt(reg, 0) == 'R' &&
    operand != [] && operand[0] == '[' && operand[|operand| - 1] == ']'
  }

  /** `MEMORY_WRITE [Rd + c], Rb`: the offset word ends in `],`, the separator
      is `+`, the source word starts with `R` and the address word with `[R`. */
  predicate MemoryWriteShape(operand: string, plus: string, shift: string, reg: string)
  {
    CharAt(shift, |shift| - 1) == ',' && plus == "+" && CharAt(reg, 0) == 'R' &&
    CharAt(operand, 0) == '[' && CharAt(shift, |shift| - 2) == ']' && CharAt(operand, 1) == 'R'
  }

  /** `OR Rb, [c] | Rd`: only the comma and the `|` are checked. */
  predicate OrShape(reg: string, plus: string)
  {
    CharAt(reg, |reg| - 1) == ',' && plus == "|"
  }

  datatype Verdict = Emit(code: seq<bool>) | Skip | Reject

  /** What one statement does: the word it encodes, nothing for an unknown
      word, or a rejection that ends assembly. Note the operand order of each
      encoder call (4_dz/assemble/Assemble.cpp:101, 137, 177, 212). */
  function Assess(l: Line): Verdict
  {
    match l
    case LoadConstantLine(reg, operand, regAddr, value) =>
      if LoadConstantShape(reg, operand) then Emit(LoadConstantCode(regAddr, value)) else Reject
    case MemoryReadLine(reg, operand, regAddr, addr) =>
      if MemoryReadShape(reg, operand) then Emit(MemoryReadCode(addr, regAddr)) else Reject
    case MemoryWriteLine(operand, plus, shift, reg, regAddr, offset, value) =>
      if MemoryWriteShape(operand, plus, shift, reg) then Emit(MemoryWriteCode(value, offset, regAddr)) else Reject
    case OrLine(reg, operand, plus, shift, regAddr, addr, offset) =>
      if OrShape(reg, plus) then Emit(BitwiseOrCode(regAddr, addr, offset)) else Reject
    case Other(_) => Skip
  }

  /** The binary file an assembly program produces: the words of the
      statements in order, up to the first rejected one. */
  function Output(lines: seq<Line>): (bs: seq<Byte>)
    ensures |bs| % WORD_BYTES == 0
  {
    if lines == [] then []
    else
      match Assess(lines[0])
      case Emit(code) => ToBytes(code) + Output(lines[1..])
      case Skip => Output(lines[1..])
      case Reject => []
  }

  /** The statements that produce a word. */
  function Emitted(lines: seq<Line>): nat
  {
    if lines == [] then 0
    else
      match Assess(lines[0])
      case Emit(_) => 1 + Emitted(lines[1..])
      case Skip => Emitted(lines[1..])
      case Reject => 0
  }

  /** Six bytes per encoded statement, and nothing for a program that starts
      with a rejected statement. */
  lemma {:induction false} OutputLength(lines: seq<Line>)
    ensures |Output(lines)| == WORD_BYTES * Emitted(lines)
    ensures lines != [] && Assess(lines[0]).Reject? ==> Output(lines) == []
  {
    if lines != [] && !Assess(lines[0]).Reject? {
      OutputLength(lines[1..]);
    }
  }

  /** A rejected statement stops assembly: what follows it is never encoded. */
  lemma {:induction false} RejectStops(lines: seq<Line>, k: nat)
    requires k < |lines| && Assess(lines[k]).Reject?
    ensures Output(lines) == Output(lines[..k])
  {
    if k > 0 {
      assert lines[1..][k - 1] == lines[k];
      RejectStops(lines[1..], k - 1);
      assert lines[1..][..k - 1] == lines[..k][1..];
    } else {
      assert Output(lines[..0]) == [];
    }
  }

  /** Assembling two programs one after the other, when the first has no
      rejected statement. */
  lemma {:induction false} OutputAppend(a: seq<Line>, b: seq<Line>)
    requires forall k :: 0 <= k < |a| ==> !Assess(a[k]).Reject?
    ensures Output(a + b) == Output(a) + Output(b)
  {
    if a == [] {
      assert a + b == b;
    } else {
      assert (a + b)[0] == a[0] && (a + b)[1..] == a[1..] + b;
      OutputAppend(a[1..], b);
    }
  }

  // ---------------------------------------------------------------------------
  // The programs of the assembler's own tests (4_dz/tests/tests.cpp)

  /** The six bytes, least significant first, of a word whose number is `n`. */
  function WordOf(n: nat): (bs: seq<int>)
    ensures |bs| == WORD_BYTES
  {
    [n % 0x100, (n / 0x100) % 0x100, (n / 0x1_0000) % 0x100,
     (n / 0x100_0000) % 0x100, (n / 0x1_0000_0000) % 0x100, (n / 0x100_0000_0000) % 0x100]
  }

  /** The bytes of a one-statement program, given the number of its word. */
  lemma LineBytes(l: Line, n: nat)
    requires Assess(l).Emit? && Num(Assess(l).code) == n
    ensures Output([l]) == WordOf(n)
  {
    OneLine(l);
    WordBytes(Assess(l).code, n);
  }

  lemma LoadConstantLineBytes(reg: string, operand: string, b: U32, c: U32, n: nat)
    requires LoadConstantShape(reg, operand)
    requires n == 195 + 0x100 * (b % 8) + 0x800 * (c % 0x400_0000)
    ensures Output([LoadConstantLine(reg, operand, b, c)]) ==
            WordOf(n)
  {
    LoadConstantLayout(b, c);
    LineBytes(LoadConstantLine(reg, operand, b, c), n);
  }

  lemma MemoryReadLineBytes(reg: string, operand: string, regAddr: U32, addr: U32, n: nat)
    requires MemoryReadShape(reg, operand)
    requires n == 83 + 0x100 * (addr % 8) + 0x800 * (regAddr % 8)
    ensures Output([MemoryReadLine(reg, operand, regAddr, addr)]) ==
            WordOf(n)
  {
    MemoryReadLayout(addr, regAddr);
    LineBytes(MemoryReadLine(reg, operand, regAddr, addr), n);
  }

  lemma MemoryWriteLineBytes(operand: string, plus: string, shift: string, reg: string,
                             regAddr: U32, offset: U32, value: U32, n: nat)
    requires MemoryWriteShape(operand, plus, shift, reg)
    requires n == 53 + 0x100 * (value % 8) + 0x800 * (offset % 0x200) + 0x10_0000 * (regAddr % 8)
    ensures Output([MemoryWriteLine(operand, plus, shift, reg, regAddr, offset, value)]) ==
            WordOf(n)
  {
    MemoryWriteLayout(value, offset, regAddr);
    LineBytes(MemoryWriteLine(operand, plus, shift, reg, regAddr, offset, value), n);
  }

  lemma OrLineBytes(reg: string, operand: string, plus: string, shift: string,
                    regAddr: U32, addr: U32, offset: U32, n: nat)
    requires OrShape(reg, plus)
    requires n == 74 + 0x100 * (regAddr % 8) + 0x800 * (addr % 0x800_0000) + 0x40_0000_0000 * (offset % 8)
    ensures Output([OrLine(reg, operand, plus, shift, regAddr, addr, offset)]) ==
            WordOf(n)
  {
    BitwiseOrLayout(regAddr, addr, offset);
    LineBytes(OrLine(reg, operand, plus, shift, regAddr, addr, offset), n);
  }

  /** `LOAD_CONSTANT R4, #187` assembles to c3 dc 05 00 00 00. */
  lemma LoadConstantTest(b: U32, c: U32)
    requires b == 4 && c == 187
    ensures Output([LoadConstantLine("R4,", "#187", b, c)]) == [0xc3, 0xdc, 0x05, 0x00, 0x00, 0x00]
  {
    assert LoadConstantShape("R4,", "#187");
    LoadConstantLineBytes("R4,", "#187", b, c, 0x5_dcc3);
    LoadConstantBytes();
  }
  lemma LoadConstantBytes()
    ensures WordOf(0x5_dcc3) == [0xc3, 0xdc, 0x05, 0x00, 0x00, 0x00]
  {
  }


  /** `MEMORY_READ R5, [R4]` assembles to 53 2c 00 00 00 00. */
  lemma MemoryReadTest(regAddr: U32, addr: U32)
    requires regAddr == 5 && addr == 4
    ensures Output([MemoryReadLine("R5,", "[R4]", regAddr, addr)]) == [0x53, 0x2c, 0x00, 0x00, 0x00, 0x00]
  {
    assert MemoryReadShape("R5,", "[R4]");
    MemoryReadLineBytes("R5,", "[R4]", regAddr, addr, 0x2c53);
    MemoryReadBytes();
  }
  lemma MemoryReadBytes()
    ensures WordOf(0x2c53) == [0x53, 0x2c, 0x00, 0x00, 0x00, 0x00]
  {
  }


  /** `MEMORY_WRITE [R1 + 144], R6` assembles to 35 86 14 00 00 00. */
  lemma MemoryWriteTest(regAddr: U32, offset: U32, value: U32)
    requires regAddr == 1 && offset == 144 && value == 6
    ensures Output([MemoryWriteLine("[R1", "+", "144],", "R6", regAddr, offset, value)]) ==
            [0x35, 0x86, 0x14, 0x00, 0x00, 0x00]
  {
    assert MemoryWriteShape("[R1", "+", "144],", "R6");
    MemoryWriteLineBytes("[R1", "+", "144],", "R6", regAddr, offset, value, 0x14_8635);
    MemoryWriteBytes();
  }
  lemma MemoryWriteBytes()
    ensures WordOf(0x14_8635) == [0x35, 0x86, 0x14, 0x00, 0x00, 0x00]
  {
  }


  /** `OR R5, [491] | R1` assembles to 4a 5d 0f 00 40 00. */
  lemma BitwiseOrTest(regAddr: U32, addr: U32, offset: U32)
    requires regAddr == 5 && addr == 491 && offset == 1
    ensures Output([OrLine("R5,", "[491]", "|", "R1", regAddr, addr, offset)]) ==
            [0x4a, 0x5d, 0x0f, 0x00, 0x40, 0x00]
  {
    assert OrShape("R5,", "|");
    OrLineBytes("R5,", "[491]", "|", "R1", regAddr, addr, offset, 0x40_000f_5d4a);
    BitwiseOrBytes();
  }
  lemma BitwiseOrBytes()
    ensures WordOf(0x40_000f_5d4a) == [0x4a, 0x5d, 0x0f, 0x00, 0x40, 0x00]
  {
  }


  /** A one-statement program that encodes a word is that word's bytes. */
  lemma OneLine(l: Line)
    requires Assess(l).Emit?
    ensures Output([l]) == ToBytes(Assess(l).code)
  {
    assert [l][1..] == [];
  }

  /** The six bytes of a word as divisions of its number. */
  lemma WordBytes(code: seq<bool>, n: nat)
    requires Num(code) == n
    ensures ToBytes(code) == WordOf(n)
  {
    Pow2Values();
    assert Pow2(0) == 1;
  }

  // ---------------------------------------------------------------------------
  // The assembler object: `os` is the binary output stream

  class Assemble {
    var os: seq<Byte>

    /** Assemble::Assemble: the statements are assembled in order into `os`;
        the first rejected statement ends assembly. */
    constructor (lines: seq<Line>)
      ensures os == Output(lines)
    {
      os := [];
      new;
      AssembleLines(lines);
    }

    /** The statement loop of the constructor. */
    method AssembleLines(lines: seq<Line>)
      modifies this
      ensures os == old(os) + Output(lines)
    {
      var k := 0;
      while k < |lines|
        invariant 0 <= k <= |lines|
        invariant os + Output(lines[k..]) == old(os) + Output(lines)
        decreases |lines| - k
      {
        assert lines[k..][1..] == lines[k + 1..];
        ghost var before := os;
        match lines[k] {
        case LoadConstantLine(reg, operand, regAddr, value) =>
          if !LoadConstantShape(reg, operand) {
            return;
          }
          LoadConstant(regAddr, value);
        case MemoryReadLine(reg, operand, regAddr, addr) =>
          if !MemoryReadShape(reg, operand) {
            return;
          }
          MemoryRead(addr, regAddr);
        case MemoryWriteLine(operand, plus, shift, reg, regAddr, offset, value) =>
          if !MemoryWriteShape(operand, plus, shift, reg) {
            return;
          }
          MemoryWrite(value, offset, regAddr);
        case OrLine(reg, operand, plus, shift, regAddr, addr, offset) =>
          if !OrShape(reg, plus) {
            return;
          }
          BitwiseOr(regAddr, addr, offset);
        case Other(_) =>
        }
        assert os + Output(lines[k + 1..]) == before + Output(lines[k..]);
        k := k + 1;
      }
      assert lines[k..] == [];
    }

    /** writeBitsetToBinaryFile: byte i of the word is bits 8i..8i+7. */
    method WriteBitset(code: seq<bool>)
      modifies this
      ensures os == old(os) + ToBytes(code)
    {
      var i := 0;
      while i < WORD_BITS / 8
        invariant 0 <= i <= WORD_BYTES
        invariant os == old(os) + ToBytes(code)[..i]
      {
        var byte := ByteAt(code, i);
        os := os + [byte];
        assert ToBytes(code)[..i + 1] == ToBytes(code)[..i] + [byte];
        i := i + 1;
      }
    }

    method LoadConstant(b: U32, c: U32)
      modifies this
      ensures os == old(os) + ToBytes(LoadConstantCode(b, c))
    {
      var code := Zeros(WORD_BITS);
      code := FillField(code, [], 8, 195);
      code := FillField(code, BitsOf(195, 8), 3, b);
      code := FillField(code, BitsOf(195, 8) + BitsOf(b, 3), 26, c);
      WriteBitset(code);
    }

    method MemoryRead(b: U32, c: U32)
      modifies this
      ensures os == old(os) + ToBytes(MemoryReadCode(b, c))
    {
      var code := Zeros(WORD_BITS);
      code := FillField(code, [], 8, 83);
      code := FillField(code, BitsOf(83, 8), 3, b);
      code := FillField(code, BitsOf(83, 8) + BitsOf(b, 3), 3, c);
      WriteBitset(code);
    }

    method MemoryWrite(b: U32, c: U32, d: U32)
      modifies this
      ensures os == old(os) + ToBytes(MemoryWriteCode(b, c, d))
    {
      var code := Zeros(WORD_BITS);
      code := FillField(code, [], 8, 53);
      code := FillField(code, BitsOf(53, 8), 3, b);
      code := FillField(code, BitsOf(53, 8) + BitsOf(b, 3), 9, c);
      code := FillField(code, BitsOf(53, 8) + BitsOf(b, 3) + BitsOf(c, 9), 3, d);
      WriteBitset(code);
    }

    method BitwiseOr(b: U32, c: U32, d: U32)
      modifies this
      ensures os == old(os) + ToBytes(BitwiseOrCode(b, c, d))
    {
      var code := Zeros(WORD_BITS);
      code := FillField(code, [], 8, 74);
      code := FillField(code, BitsOf(74, 8), 3, b);
      code := FillField(code, BitsOf(74, 8) + BitsOf(b, 3), 27, c);
      code := FillField(code, BitsOf(74, 8) + BitsOf(b, 3) + BitsOf(c, 27), 3, d);
      WriteBitset(code);
    }
  }

  /** The next field of a word filled from bit 0 upwards: the bits so far,
      then zeros, become the bits so far, the field, then zeros. */
  method FillField(code: seq<bool>, filled: seq<bool>, width: nat, x: nat) returns (r: seq<bool>)
    requires |filled| + width <= WORD_BITS
    requires code == filled + Zeros(WORD_BITS - |filled|)
    ensures r == filled + BitsOf(x, width) + Zeros(WORD_BITS - |filled| - width)
  {
    r := SetBits(code, |filled|, width, x);
    assert code[..|filled|] == filled;
    assert code[|filled| + width..] == Zeros(WORD_BITS - |filled| - width);
  }

  /** One field-filling loop of an encoder: `code[i] = (x >> (i - lo)) & 1`
      for i from lo to lo + width - 1. Bits outside the field are kept. */
  method SetBits(code: seq<bool>, lo: nat, width: nat, x: nat) returns (r: seq<bool>)
    requires lo + width <= |code|
    ensures r == code[..lo] + BitsOf(x, width) + code[lo + width..]
    ensures Field(r, lo, width) == x % Pow2(width)
  {
    r := code;
    var i := lo;
    while i < lo + width
      invariant lo <= i <= lo + width
      invariant r == code[..lo] + BitsOf(x, i - lo) + code[i..]
    {
      r := r[i := Bit(x, i - lo)];
      assert BitsOf(x, i + 1 - lo) == BitsOf(x, i - lo) + [Bit(x, i - lo)];
      i := i + 1;
    }
    assert r[lo..lo + width] == BitsOf(x, width);
    FieldOfBits(r, lo, width, x);
  }
}
