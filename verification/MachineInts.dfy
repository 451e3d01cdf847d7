/** Fixed-width integers of the C program and of the IA-32 processor, written out over `int`. */
module MachineInts {
  type Byte = x: int | 0 <= x < 0x100
  type Word = x: int | 0 <= x < 0x1_0000_0000

  const INT8_MAX := 127
  const INT8_MIN := -128
  const INT32_MAX := 0x7fff_ffff
  const INT32_MIN := -0x8000_0000

  predicate FitsInt32(x: int) { INT32_MIN <= x <= INT32_MAX }

  predicate FitsInt8(x: int) { INT8_MIN <= x <= INT8_MAX }

  /** Conversion to uint8_t. */
  function Wrap8(x: int): Byte { x % 0x100 }

  /** Conversion to uint32_t. */
  function Wrap32(x: int): Word { x % 0x1_0000_0000 }

  /** The value of a byte read as int8_t. */
  function Signed8(b: Byte): int { if b < 0x80 then b else b - 0x100 }

  /** The value of a word read as int32_t. */
  function Signed32(w: Word): int { if w < 0x8000_0000 then w else w - 0x1_0000_0000 }

  /** The four bytes of an int32_t or uint32_t, least significant first. */
  function Le32(x: int): (b: seq<Byte>)
    ensures |b| == 4
  {
    WordBytes(Wrap32(x))
  }

  function WordBytes(w: Word): (b: seq<Byte>)
    ensures |b| == 4
  {
    [w % 0x100, w / 0x100 % 0x100, w / 0x1_0000 % 0x100, w / 0x100_0000]
  }

  function FromLe32(b0: Byte, b1: Byte, b2: Byte, b3: Byte): Word {
    b0 + 0x100 * b1 + 0x1_0000 * b2 + 0x100_0000 * b3
  }

  lemma Le32RoundTrip(x: int)
    ensures var b := Le32(x); FromLe32(b[0], b[1], b[2], b[3]) == Wrap32(x)
  {
    var w := Wrap32(x);
    var q1 := w / 0x100;
    var q2 := q1 / 0x100;
    var q3 := q2 / 0x100;
    assert w / 0x1_0000 == q2 && w / 0x100_0000 == q3;
  }

  lemma Signed32OfWrap(x: int)
    requires FitsInt32(x)
    ensures Signed32(Wrap32(x)) == x
  {
    if x < 0 {
      assert (x + 0x1_0000_0000) % 0x1_0000_0000 == x + 0x1_0000_0000;
    }
  }

  lemma Le32OfSigned(x: int)
    ensures Le32(Signed32(Wrap32(x))) == Le32(x) && Le32(Wrap32(x)) == Le32(x)
  {
    hide WordBytes;
    assert Wrap32(Signed32(Wrap32(x))) == Wrap32(x);
  }

  lemma Wrap8OfSigned(x: int)
    ensures Wrap8(Signed8(Wrap8(x))) == Wrap8(x)
  {
  }

  lemma Wrap8Add(x: int, y: int)
    ensures Wrap8(Wrap8(x) + y) == Wrap8(x + y)
  {
  }

  lemma Wrap8Shift(x: int, k: int)
    ensures Wrap8(x + 0x100 * k) == Wrap8(x)
  {
  }

  /** Only the low byte of an operand reaches an 8-bit cell. */
  lemma LowByte(cell: Byte, x: int)
    ensures Wrap8(cell + Wrap8(Wrap32(x))) == Wrap8(cell + x)
    ensures Wrap8(cell - Wrap8(Wrap32(x))) == Wrap8(cell - x)
  {
    var high, low := x / 0x1_0000_0000, Wrap32(x) / 0x100;
    var k := 0x100_0000 * high + low;
    assert Wrap8(Wrap32(x)) == x - 0x100 * k;
    Wrap8Shift(cell + x, -k);
    Wrap8Shift(cell - x, k);
  }
}
