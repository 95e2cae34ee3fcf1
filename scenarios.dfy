/** The cases of the repository's Unpack tests, as facts about the model. */
module Scenarios {
  import opened Arith
  import opened BitReader
  import opened Unpacker

  function Tagged(n: int, k: Kind): (f: Field)
  {
    Field(Bits(Some(n)), k)
  }

  /** A turn that reads field i, of n bits and of an integer kind k that
      holds n bits, from within the byte b where the cursor c stands, stores
      the bits x it reads. */
  lemma TakeInByte(data: seq<byte>, fields: seq<Field>, init: seq<int>, i: nat, c: nat, k: Kind, n: nat, b: byte, x: nat)
    requires i < |fields| && |init| == |fields|
    requires Control(data, fields, i) == Progress(c, Ok)
    requires fields[i] == Tagged(n, k) && 0 < n && k != Unsupported
    requires c / 8 < |data| && data[c / 8] == b && c % 8 + n <= 8
    requires Window(b, c % 8, n) == x
    requires if IsUnsigned(k) then n <= TargetWidth(k) else n < TargetWidth(k)
    ensures Control(data, fields, i + 1) == Progress(c + n, Ok)
    ensures Values(data, fields, init, i + 1) == Values(data, fields, init, i)[i := x]
  {
    ByteWindow(data, c, n);
    if IsUnsigned(k) {
      Pow2Monotone(n, TargetWidth(k));
    } else {
      Pow2Monotone(n, TargetWidth(k) - 1);
    }
    CoerceKeepsFittingValue(k, x);
    DecideTakes(data, fields, i, c);
    TurnTakes(data, fields, init, i, n);
  }

  /** A turn that reads field i, of 8 bits, from the whole byte b where the
      cursor c stands stores b. */
  lemma TakeByte(data: seq<byte>, fields: seq<Field>, init: seq<int>, i: nat, c: nat, k: Kind, b: byte)
    requires i < |fields| && |init| == |fields|
    requires Control(data, fields, i) == Progress(c, Ok)
    requires fields[i] == Tagged(8, k) && k != Unsupported && (IsUnsigned(k) || 8 < TargetWidth(k))
    requires c % 8 == 0 && c / 8 < |data| && data[c / 8] == b
    ensures Control(data, fields, i + 1) == Progress(c + 8, Ok)
    ensures Values(data, fields, init, i + 1) == Values(data, fields, init, i)[i := b as int]
  {
    assert Window(b, 0, 8) == b as int by {
      assert Pow2(0) == 1 && Pow2(8) == 256;
    }
    TakeInByte(data, fields, init, i, c, k, 8, b, b as int);
  }

  /** A sequence of three elements, element by element. */
  lemma Three(s: seq<int>, a: int, b: int, c: int)
    requires |s| == 3 && s[0] == a && s[1] == b && s[2] == c
    ensures s == [a, b, c]
  {
  }

  /** One 8-bit field reads the whole byte 0b10101010. */
  lemma SingleByte(data: seq<byte>, fields: seq<Field>, init: seq<int>)
    requires data == [0xAA] && fields == [Tagged(8, Uint8)] && init == [0]
    ensures Decode(data, fields, init) == Unpacked([0xAA], Ok)
  {
    TakeByte(data, fields, init, 0, 0, Uint8, 0xAA);
  }

  /** Fields of 4, 4, 6 and 2 bits over 0b11011010 0b10101100 read
      0b1101, 0b1010, 0b101011 and 0b00. */
  lemma MultipleFieldsAcrossBytes(data: seq<byte>, fields: seq<Field>, init: seq<int>)
    requires data == [0xDA, 0xAC]
    requires fields == [Tagged(4, Uint8), Tagged(4, Uint8), Tagged(6, Uint8), Tagged(2, Uint8)]
    requires init == [0, 0, 0, 0]
    ensures Decode(data, fields, init) == Unpacked([13, 10, 43, 0], Ok)
  {
    TakeInByte(data, fields, init, 0, 0, Uint8, 4, 0xDA, 13);
    TakeInByte(data, fields, init, 1, 4, Uint8, 4, 0xDA, 10);
    TakeInByte(data, fields, init, 2, 8, Uint8, 6, 0xAC, 43);
    TakeInByte(data, fields, init, 3, 14, Uint8, 2, 0xAC, 0);
    assert init[0 := 13][1 := 10][2 := 43][3 := 0] == [13, 10, 43, 0];
  }

  /** Three 8-bit fields into uint8, int16 and uint32 read 0b11011010,
      0b10101100 and 0b11111111. The int16 field gets 172, not a negative
      value: the top bit of an 8-bit field is no sign bit. */
  lemma MixedIntegerKinds(data: seq<byte>, fields: seq<Field>, init: seq<int>)
    requires data == [0xDA, 0xAC, 0xFF]
    requires fields == [Tagged(8, Uint8), Tagged(8, Int16), Tagged(8, Uint32)]
    requires init == [0, 0, 0]
    ensures Decode(data, fields, init) == Unpacked([218, 172, 255], Ok)
  {
    var v := Values(data, fields, init, 3);
    assert Control(data, fields, 3) == Progress(24, Ok) && v == init[0 := 218][1 := 172][2 := 255] by {
      TakeByte(data, fields, init, 0, 0, Uint8, 0xDA);
      TakeByte(data, fields, init, 1, 8, Int16, 0xAC);
      TakeByte(data, fields, init, 2, 16, Uint32, 0xFF);
    }
    Three(v, 218, 172, 255);
  }

  /** The four fields of MultipleFieldsAcrossBytes over the single byte
      0b11011010: the third field needs 6 bits where none are left, and the
      first two keep the values already stored. */
  lemma NotEnoughData(data: seq<byte>, fields: seq<Field>, init: seq<int>)
    requires data == [0xDA]
    requires fields == [Tagged(4, Uint8), Tagged(4, Uint8), Tagged(6, Uint8), Tagged(2, Uint8)]
    requires init == [0, 0, 0, 0]
    ensures Decode(data, fields, init) == Unpacked([13, 10, 0, 0], Failed(NotEnoughBits(2, 6, 0)))
  {
    TakeInByte(data, fields, init, 0, 0, Uint8, 4, 0xDA, 13);
    TakeInByte(data, fields, init, 1, 4, Uint8, 4, 0xDA, 10);
    StopIsFinal(data, fields, init, 2, NotEnoughBits(2, 6, 0));
    assert init[0 := 13][1 := 10] == [13, 10, 0, 0];
  }

  /** A `bits` tag that is not a number is refused at the first field. */
  lemma InvalidBitsTag(data: seq<byte>, fields: seq<Field>, init: seq<int>)
    requires data == [0] && fields == [Field(Bits(None), Uint8)] && init == [0]
    ensures Decode(data, fields, init) == Unpacked([0], Failed(InvalidBits(0)))
  {
    StopIsFinal(data, fields, init, 0, InvalidBits(0));
  }
}
