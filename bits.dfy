/** The 48-bit instruction word of the 4_dz register machine. A
    `std::bitset<48>` is a sequence of 48 booleans, bit 0 first; its
    `to_ulong()` is Num; `x >> k` on an unsigned number is division by
    Pow2(k) and `& (2^w - 1)` is the remainder modulo Pow2(w). Bytes go to the
    binary file least significant first (4_dz/assemble/Assemble.cpp:3-10) and
    are read back the same way (4_dz/interpret/Interpret.cpp:17-27). */
module Bits {
  /** Bits in an instruction word, and bytes per word. */
  const WORD_BITS := 48
  const WORD_BYTES := 6

  type Byte = x: int | 0 <= x < 256
  /** `unsigned int` and `uint32_t`. */
  type U32 = x: int | 0 <= x < 0x1_0000_0000

  function Pow2(n: nat): (r: nat)
    ensures r >= 1
  {
    if n == 0 then 1 else 2 * Pow2(n - 1)
  }

  /** `(x >> k) & 1`. */
  function Bit(x: nat, k: nat): bool
  {
    if k == 0 then x % 2 == 1 else Bit(x / 2, k - 1)
  }

  /** The low w bits of x, bit 0 first. */
  function BitsOf(x: nat, w: nat): (s: seq<bool>)
    ensures |s| == w
  {
    seq(w, k requires 0 <= k => Bit(x, k))
  }

  function Zeros(w: nat): (s: seq<bool>)
    ensures |s| == w && forall k :: 0 <= k < w ==> !s[k]
  {
    seq(w, k => false)
  }

  /** The unsigned number a bit sequence stands for (`to_ulong`). */
  function Num(s: seq<bool>): nat
  {
    if s == [] then 0 else (if s[0] then 1 else 0) + 2 * Num(s[1..])
  }

  /** `(to_ulong(code) >> lo) & (2^width - 1)`: the field decoders read. */
  function Field(code: seq<bool>, lo: nat, width: nat): (r: nat)
    ensures r < Pow2(width)
  {
    (Num(code) / Pow2(lo)) % Pow2(width)
  }

  // ---------------------------------------------------------------------------
  // Arithmetic facts

  lemma Pow2Add(a: nat, b: nat)
    ensures Pow2(a + b) == Pow2(a) * Pow2(b)
  {
    if a > 0 {
      Pow2Add(a - 1, b);
    }
  }

  /** The powers of two the instruction layouts use. */
  lemma Pow2Values()
    ensures Pow2(3) == 8 && Pow2(8) == 0x100 && Pow2(9) == 0x200 && Pow2(11) == 0x800
    ensures Pow2(16) == 0x1_0000 && Pow2(20) == 0x10_0000 && Pow2(21) == 0x20_0000
    ensures Pow2(24) == 0x100_0000 && Pow2(26) == 0x400_0000 && Pow2(27) == 0x800_0000
    ensures Pow2(32) == 0x1_0000_0000 && Pow2(38) == 0x40_0000_0000 && Pow2(40) == 0x100_0000_0000
  {
    assert Pow2(3) == 8 && Pow2(8) == 0x100 && Pow2(1) == 2 && Pow2(2) == 4;
    assert Pow2(4) == 16 && Pow2(5) == 32 && Pow2(6) == 64;
    Pow2Add(8, 1);
    Pow2Add(8, 3);
    Pow2Add(8, 8);
    Pow2Add(16, 4);
    Pow2Add(16, 5);
    Pow2Add(16, 8);
    Pow2Add(24, 2);
    Pow2Add(24, 3);
    Pow2Add(24, 8);
    Pow2Add(32, 6);
    Pow2Add(32, 8);
  }

  /** Division with remainder has one answer. */
  lemma DivModUnique(x: int, m: int, q: int, r: int)
    requires m > 0 && 0 <= r < m && x == m * q + r
    ensures x / m == q && x % m == r
  {
    var q', r' := x / m, x % m;
    assert x == m * q' + r';
    if q' > q {
      MulStep(m, q, q' - q);
    } else if q' < q {
      MulStep(m, q', q - q');
    }
  }

  /** m * (q + d) is at least m * q + m for a positive step d. */
  lemma MulStep(m: int, q: int, d: int)
    requires m > 0 && d >= 1
    ensures m * (q + d) >= m * q + m
  {
    assert m * (q + d) == m * q + m * d;
    assert m * d >= m * 1;
  }

  /** x mod 2P splits into the low bit and the rest mod P. */
  lemma ModDouble(x: nat, p: nat)
    requires p >= 1
    ensures x % (2 * p) == x % 2 + 2 * ((x / 2) % p)
  {
    var q := (x / 2) / p;
    var b := (x / 2) % p;
    assert x == 2 * (x / 2) + x % 2;
    assert x / 2 == p * q + b;
    assert x == (2 * p) * q + (x % 2 + 2 * b);
    DivModUnique(x, 2 * p, q, x % 2 + 2 * b);
  }

  // ---------------------------------------------------------------------------
  // Bits and numbers

  /** A bit sequence stands for a number below 2^length. */
  lemma {:induction false} NumBound(s: seq<bool>)
    ensures Num(s) < Pow2(|s|)
  {
    if s != [] {
      NumBound(s[1..]);
    }
  }

  /** The number of a concatenation: the second part is shifted past the first. */
  lemma {:induction false} NumAppend(a: seq<bool>, b: seq<bool>)
    ensures Num(a + b) == Num(a) + Pow2(|a|) * Num(b)
  {
    if a != [] {
      assert (a + b)[1..] == a[1..] + b;
      NumAppend(a[1..], b);
      var p := Pow2(|a| - 1);
      assert Pow2(|a|) == 2 * p;
      assert Num(a + b) == (if a[0] then 1 else 0) + 2 * (Num(a[1..]) + p * Num(b));
      assert 2 * (p * Num(b)) == (2 * p) * Num(b);
    } else {
      assert a + b == b;
    }
  }

  /** Reading the low w bits of x gives x mod 2^w. */
  lemma {:induction false} NumBitsOf(x: nat, w: nat)
    ensures Num(BitsOf(x, w)) == x % Pow2(w)
  {
    if w > 0 {
      var s := BitsOf(x, w);
      assert s[1..] == BitsOf(x / 2, w - 1);
      NumBitsOf(x / 2, w - 1);
      ModDouble(x, Pow2(w - 1));
    }
  }

  /** The bits of the number of s are s again. */
  lemma {:induction false} BitsOfNum(s: seq<bool>)
    ensures BitsOf(Num(s), |s|) == s
  {
    if s != [] {
      BitsOfNum(s[1..]);
      var n := Num(s);
      assert n / 2 == Num(s[1..]) && n % 2 == (if s[0] then 1 else 0);
      forall k | 0 <= k < |s|
        ensures Bit(n, k) == s[k]
      {
        if k > 0 {
          assert Bit(n, k) == Bit(Num(s[1..]), k - 1);
          assert BitsOf(Num(s[1..]), |s| - 1)[k - 1] == s[1..][k - 1];
        }
      }
    }
  }

  /** A field read with shift and mask is the number of the bits it covers. */
  lemma FieldSlice(s: seq<bool>, lo: nat, width: nat)
    requires lo + width <= |s|
    ensures Field(s, lo, width) == Num(s[lo..lo + width])
  {
    var low, mid, high := s[..lo], s[lo..lo + width], s[lo + width..];
    assert s == low + (mid + high);
    NumAppend(low, mid + high);
    NumAppend(mid, high);
    NumBound(low);
    NumBound(mid);
    var upper := Num(mid) + Pow2(width) * Num(high);
    DivModUnique(Num(s), Pow2(lo), upper, Num(low));
    DivModUnique(upper, Pow2(width), Num(high), Num(mid));
  }

  /** A field holding the low `width` bits of x reads back as x mod 2^width. */
  lemma FieldOfBits(s: seq<bool>, lo: nat, width: nat, x: nat)
    requires lo + width <= |s| && s[lo..lo + width] == BitsOf(x, width)
    ensures Field(s, lo, width) == x % Pow2(width)
  {
    FieldSlice(s, lo, width);
    NumBitsOf(x, width);
  }

  lemma NumZeros(w: nat)
    ensures Num(Zeros(w)) == 0
  {
    if w > 0 {
      assert Zeros(w)[1..] == Zeros(w - 1);
      NumZeros(w - 1);
    }
  }

  // ---------------------------------------------------------------------------
  // Words and bytes

  /** Byte i of the word: `(code >> (i * 8)).to_ulong() & 0xFF`. */
  function ByteAt(code: seq<bool>, i: nat): (b: Byte)
  {
    Field(code, 8 * i, 8)
  }

  /** The six bytes writeBitsetToBinaryFile emits, least significant first. */
  function ToBytes(code: seq<bool>): (bs: seq<Byte>)
    ensures |bs| == WORD_BYTES
  {
    seq(WORD_BYTES, i requires 0 <= i => ByteAt(code, i))
  }

  /** The bits of a byte list laid end to end. */
  function Spread(bs: seq<Byte>): (s: seq<bool>)
    ensures |s| == 8 * |bs|
  {
    if bs == [] then [] else BitsOf(bs[0], 8) + Spread(bs[1..])
  }

  /** What readBitsetFromBinaryFile builds from the bytes it could read: byte i
      ORed into bits 8i..8i+7 of an all-zero bitset; bits of missing bytes
      stay 0. */
  function FromBytes(bs: seq<Byte>): (code: seq<bool>)
    requires |bs| <= WORD_BYTES
    ensures |code| == WORD_BITS
  {
    Spread(bs) + Zeros(WORD_BITS - 8 * |bs|)
  }

  /** `code |= std::bitset<48>(b) << (i * 8)`. */
  function OrByte(code: seq<bool>, i: nat, b: Byte): (r: seq<bool>)
    ensures |r| == |code|
  {
    seq(|code|, j requires 0 <= j < |code| => code[j] || (8 * i <= j < 8 * i + 8 && Bit(b, j - 8 * i)))
  }

  lemma {:induction false} SpreadAppend(bs: seq<Byte>, b: Byte)
    ensures Spread(bs + [b]) == Spread(bs) + BitsOf(b, 8)
  {
    if bs != [] {
      assert (bs + [b])[1..] == bs[1..] + [b];
      SpreadAppend(bs[1..], b);
    } else {
      assert bs + [b] == [b];
    }
  }

  /** One more byte ORed in is one more byte read. */
  lemma OrByteStep(bs: seq<Byte>, b: Byte)
    requires |bs| < WORD_BYTES
    ensures OrByte(FromBytes(bs), |bs|, b) == FromBytes(bs + [b])
  {
    SpreadAppend(bs, b);
    var lhs := OrByte(FromBytes(bs), |bs|, b);
    var rhs := FromBytes(bs + [b]);
    forall j | 0 <= j < WORD_BITS
      ensures lhs[j] == rhs[j]
    {
      if j < 8 * |bs| {
        assert rhs[j] == Spread(bs)[j] == FromBytes(bs)[j];
      } else if j < 8 * |bs| + 8 {
        assert rhs[j] == BitsOf(b, 8)[j - 8 * |bs|];
      }
    }
  }

  /** Reading back the bytes of a word gives the word: the interpreter's byte
      order inverts the assembler's. */
  lemma BytesRoundTrip(code: seq<bool>)
    requires |code| == WORD_BITS
    ensures FromBytes(ToBytes(code)) == code
  {
    SpreadBytesFrom(code, 0);
    assert code[0..] == code;
  }

  lemma {:induction false} SpreadBytesFrom(code: seq<bool>, i: nat)
    requires |code| == WORD_BITS && i <= WORD_BYTES
    ensures Spread(ToBytes(code)[i..]) == code[8 * i..]
    decreases WORD_BYTES - i
  {
    var bs := ToBytes(code)[i..];
    if i < WORD_BYTES {
      assert bs[1..] == ToBytes(code)[i + 1..];
      SpreadBytesFrom(code, i + 1);
      FieldSlice(code, 8 * i, 8);
      BitsOfNum(code[8 * i..8 * i + 8]);
      assert code[8 * i..] == code[8 * i..8 * i + 8] + code[8 * (i + 1)..];
    }
  }

  /** The bytes of what was read are the bytes read, then zeros for the bytes
      that were missing. */
  lemma ReadBytesBack(bs: seq<Byte>)
    requires |bs| <= WORD_BYTES
    ensures ToBytes(FromBytes(bs)) == bs + seq(WORD_BYTES - |bs|, _ => 0)
  {
    var rhs := bs + seq(WORD_BYTES - |bs|, _ => 0);
    forall i | 0 <= i < WORD_BYTES
      ensures ToBytes(FromBytes(bs))[i] == rhs[i]
    {
      ReadByteBack(bs, i);
    }
  }

  lemma ReadByteBack(bs: seq<Byte>, i: nat)
    requires |bs| <= WORD_BYTES && i < WORD_BYTES
    ensures ByteAt(FromBytes(bs), i) == if i < |bs| then bs[i] else 0
  {
    var code := FromBytes(bs);
    FieldSlice(code, 8 * i, 8);
    if i < |bs| {
      SpreadSlice(bs, i);
      assert code[8 * i..8 * i + 8] == Spread(bs)[8 * i..8 * i + 8];
      NumBitsOf(bs[i], 8);
      Pow2Values();
    } else {
      assert code[8 * i..8 * i + 8] == Zeros(8);
      NumZeros(8);
    }
  }

  lemma {:induction false} SpreadSlice(bs: seq<Byte>, i: nat)
    requires i < |bs|
    ensures 8 * i + 8 <= |Spread(bs)| && Spread(bs)[8 * i..8 * i + 8] == BitsOf(bs[i], 8)
  {
    if i > 0 {
      SpreadSlice(bs[1..], i - 1);
      assert Spread(bs) == BitsOf(bs[0], 8) + Spread(bs[1..]);
      assert Spread(bs)[8 * i..8 * i + 8] == Spread(bs[1..])[8 * (i - 1)..8 * (i - 1) + 8];
    }
  }
}
