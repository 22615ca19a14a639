/** Small integers as register words. The solver reasons well about the
    value of a word (word to integer) and poorly about the word an integer
    denotes (integer to word), so the words below 512 are built a bit at a
    time, each step a fact about one constant bit. */
module WordValues {
  import opened Registers

  lemma AddBit1(y: Word)
    requires y < 0x0001
    ensures (0x0001 | y) as int == 1 + y as int && (0x0001 | y) < 0x0002
  {
  }

  lemma LowBits2(n: int, f: Word) returns (g: Word)
    requires 0 <= n && f as int == n % 1 && f < 0x0001
    ensures g as int == n % 2 && g < 0x0002
  {
    assert n % 2 == n % 1 || n % 2 == n % 1 + 1;
    if n % 2 >= 1 {
      AddBit1(f);
      g := 0x0001 | f;
    } else {
      g := f;
    }
  }

  lemma AddBit2(y: Word)
    requires y < 0x0002
    ensures (0x0002 | y) as int == 2 + y as int && (0x0002 | y) < 0x0004
  {
  }

  lemma LowBits4(n: int, f: Word) returns (g: Word)
    requires 0 <= n && f as int == n % 2 && f < 0x0002
    ensures g as int == n % 4 && g < 0x0004
  {
    assert n % 4 == n % 2 || n % 4 == n % 2 + 2;
    if n % 4 >= 2 {
      AddBit2(f);
      g := 0x0002 | f;
    } else {
      g := f;
    }
  }

  lemma AddBit4(y: Word)
    requires y < 0x0004
    ensures (0x0004 | y) as int == 4 + y as int && (0x0004 | y) < 0x0008
  {
  }

  lemma LowBits8(n: int, f: Word) returns (g: Word)
    requires 0 <= n && f as int == n % 4 && f < 0x0004
    ensures g as int == n % 8 && g < 0x0008
  {
    assert n % 8 == n % 4 || n % 8 == n % 4 + 4;
    if n % 8 >= 4 {
      AddBit4(f);
      g := 0x0004 | f;
    } else {
      g := f;
    }
  }

  lemma AddBit8(y: Word)
    requires y < 0x0008
    ensures (0x0008 | y) as int == 8 + y as int && (0x0008 | y) < 0x0010
  {
  }

  lemma LowBits16(n: int, f: Word) returns (g: Word)
    requires 0 <= n && f as int == n % 8 && f < 0x0008
    ensures g as int == n % 16 && g < 0x0010
  {
    assert n % 16 == n % 8 || n % 16 == n % 8 + 8;
    if n % 16 >= 8 {
      AddBit8(f);
      g := 0x0008 | f;
    } else {
      g := f;
    }
  }

  lemma AddBit16(y: Word)
    requires y < 0x0010
    ensures (0x0010 | y) as int == 16 + y as int && (0x0010 | y) < 0x0020
  {
  }

  lemma LowBits32(n: int, f: Word) returns (g: Word)
    requires 0 <= n && f as int == n % 16 && f < 0x0010
    ensures g as int == n % 32 && g < 0x0020
  {
    assert n % 32 == n % 16 || n % 32 == n % 16 + 16;
    if n % 32 >= 16 {
      AddBit16(f);
      g := 0x0010 | f;
    } else {
      g := f;
    }
  }

  lemma AddBit32(y: Word)
    requires y < 0x0020
    ensures (0x0020 | y) as int == 32 + y as int && (0x0020 | y) < 0x0040
  {
  }

  lemma LowBits64(n: int, f: Word) returns (g: Word)
    requires 0 <= n && f as int == n % 32 && f < 0x0020
    ensures g as int == n % 64 && g < 0x0040
  {
    assert n % 64 == n % 32 || n % 64 == n % 32 + 32;
    if n % 64 >= 32 {
      AddBit32(f);
      g := 0x0020 | f;
    } else {
      g := f;
    }
  }

  lemma AddBit64(y: Word)
    requires y < 0x0040
    ensures (0x0040 | y) as int == 64 + y as int && (0x0040 | y) < 0x0080
  {
  }

  lemma LowBits128(n: int, f: Word) returns (g: Word)
    requires 0 <= n && f as int == n % 64 && f < 0x0040
    ensures g as int == n % 128 && g < 0x0080
  {
    assert n % 128 == n % 64 || n % 128 == n % 64 + 64;
    if n % 128 >= 64 {
      AddBit64(f);
      g := 0x0040 | f;
    } else {
      g := f;
    }
  }

  lemma AddBit128(y: Word)
    requires y < 0x0080
    ensures (0x0080 | y) as int == 128 + y as int && (0x0080 | y) < 0x0100
  {
  }

  lemma LowBits256(n: int, f: Word) returns (g: Word)
    requires 0 <= n && f as int == n % 128 && f < 0x0080
    ensures g as int == n % 256 && g < 0x0100
  {
    assert n % 256 == n % 128 || n % 256 == n % 128 + 128;
    if n % 256 >= 128 {
      AddBit128(f);
      g := 0x0080 | f;
    } else {
      g := f;
    }
  }

  lemma AddBit256(y: Word)
    requires y < 0x0100
    ensures (0x0100 | y) as int == 256 + y as int && (0x0100 | y) < 0x0200
  {
  }

  lemma LowBits512(n: int, f: Word) returns (g: Word)
    requires 0 <= n && f as int == n % 256 && f < 0x0100
    ensures g as int == n % 512 && g < 0x0200
  {
    assert n % 512 == n % 256 || n % 512 == n % 256 + 256;
    if n % 512 >= 256 {
      AddBit256(f);
      g := 0x0100 | f;
    } else {
      g := f;
    }
  }

  /** Every integer 0..511 is the value of a word below 512. */
  lemma NineBitWitness(n: int) returns (f: Word)
    requires 0 <= n < 512
    ensures f as int == n && f < 512
  {
    assert n % 512 == n;
    var f0: Word := 0;
    var f1 := LowBits2(n, f0);
    var f2 := LowBits4(n, f1);
    var f3 := LowBits8(n, f2);
    var f4 := LowBits16(n, f3);
    var f5 := LowBits32(n, f4);
    var f6 := LowBits64(n, f5);
    var f7 := LowBits128(n, f6);
    var f8 := LowBits256(n, f7);
    f := LowBits512(n, f8);
  }

  lemma FromValue(n: int, f: Word)
    requires f as int == n
    ensures n as Word == f
  {
  }

  /** An integer 0..511 converts to the word with the same value. */
  lemma SmallValue(n: int) returns (f: Word)
    requires 0 <= n < 512
    ensures f as int == n && f < 512 && n as Word == f
  {
    f := NineBitWitness(n);
    FromValue(n, f);
  }
}
