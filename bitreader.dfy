/** The bit reader of bitpacker.go (readBits): it extracts `count` bits,
    starting at bit `offset`, from a byte buffer read most-significant bit
    first within each byte and bytes in buffer order, and returns them as an
    unsigned 64-bit value whose high-order bits are the earliest ones read. */
module BitReader {
  import opened Arith

  newtype byte = x: int | 0 <= x < 256

  /** Errors readBits returns. */
  datatype ReadError =
    | TooWide        // more than 64 bits requested
    | NotEnoughData  // a byte past the end of the buffer would be needed

  datatype ReadOutcome = Value(value: nat) | Fail(error: ReadError)

  /** Bit i of the buffer: bit i % 8 of byte i / 8, counted from the byte's
      most significant bit, that is (data[i / 8] >> (7 - i % 8)) & 1. */
  function Bit(data: seq<byte>, i: nat): (b: nat)
    requires i < 8 * |data|
    ensures b <= 1
  {
    (data[i / 8] as int / Pow2(7 - i % 8)) % 2
  }

  /** The big-endian value of bits off .. off+n-1 of the buffer:
      the sum of Bit(data, off + j) * 2^(n-1-j) for j < n. */
  function BitsValue(data: seq<byte>, off: nat, n: nat): (v: nat)
    requires off + n <= 8 * |data|
    ensures v < Pow2(n)
  {
    if n == 0 then 0 else 2 * BitsValue(data, off, n - 1) + Bit(data, off + n - 1)
  }

  /** (b >> (8 - pos - k)) & ((1 << k) - 1) on a byte: the k bits of b that
      start pos bits below its most significant bit. */
  function Window(b: byte, pos: nat, k: nat): (w: nat)
    requires pos + k <= 8
    ensures w < Pow2(k)
  {
    (b as int / Pow2(8 - pos - k)) % Pow2(k)
  }

  /** x << k on a uint64. */
  function Shl64(x: nat, k: nat): (s: nat)
    ensures s < TWO_64
  {
    (x * Pow2(k)) % TWO_64
  }

  /** Reading m + k bits is reading m bits, shifting them up by k and
      appending the next k bits. */
  lemma {:induction false} BitsValueSplit(data: seq<byte>, off: nat, m: nat, k: nat)
    requires off + m + k <= 8 * |data|
    ensures BitsValue(data, off, m + k) == BitsValue(data, off, m) * Pow2(k) + BitsValue(data, off + m, k)
  {
    var a := BitsValue(data, off, m);
    if k == 0 {
      assert a * Pow2(0) == a;
    } else {
      BitsValueSplit(data, off, m, k - 1);
      var t := BitsValue(data, off + m, k - 1);
      var b := Bit(data, off + m + k - 1);
      var p := Pow2(k - 1);
      assert BitsValue(data, off, m + k) == 2 * (a * p + t) + b;
      assert BitsValue(data, off + m, k) == 2 * t + b;
      assert Pow2(k) == 2 * p;
      ShiftAppend(a, p, t, b);
    }
  }

  /** The first bit read is the most significant bit of the value. */
  lemma MsbFirst(data: seq<byte>, off: nat, n: nat)
    requires off + n + 1 <= 8 * |data|
    ensures BitsValue(data, off, n + 1) == Bit(data, off) * Pow2(n) + BitsValue(data, off + 1, n)
  {
    BitsValueSplit(data, off, 1, n);
    assert BitsValue(data, off, 1) == Bit(data, off);
  }

  /** The j-th bit read is bit n-1-j of the value: nothing is lost, duplicated
      or reordered. */
  lemma BitOfValue(data: seq<byte>, off: nat, n: nat, j: nat)
    requires off + n <= 8 * |data| && j < n
    ensures (BitsValue(data, off, n) / Pow2(n - 1 - j)) % 2 == Bit(data, off + j)
  {
    var low := n - 1 - j;
    var a := BitsValue(data, off, j);
    var c := BitsValue(data, off + j + 1, low);
    var p := Pow2(low);
    var tail := BitsValue(data, off + j, low + 1);
    assert BitsValue(data, off, n) == a * Pow2(low + 1) + tail by {
      assert j + (low + 1) == n;
      BitsValueSplit(data, off, j, low + 1);
    }
    MsbFirst(data, off + j, low);
    DigitAt(BitsValue(data, off, n), p, a, Bit(data, off + j), c);
  }

  /** Within one byte, k bits from bit position p % 8 are the byte shifted
      right by 8 - p % 8 - k and masked to k bits. */
  lemma {:induction false} ByteWindow(data: seq<byte>, p: nat, k: nat)
    requires p / 8 < |data| && p % 8 + k <= 8
    ensures p + k <= 8 * |data|
    ensures BitsValue(data, p, k) == Window(data[p / 8], p % 8, k)
  {
    if k > 0 {
      ByteWindow(data, p, k - 1);
      var y: nat := data[p / 8] as int;
      var s := 8 - p % 8 - k;
      var q, h := Pow2(s), Pow2(k - 1);
      assert Bit(data, p + k - 1) == (y / q) % 2 by {
        assert (p + k - 1) / 8 == p / 8 && 7 - (p + k - 1) % 8 == s;
      }
      assert Window(data[p / 8], p % 8, k - 1) == (y / (q * 2)) % h by {
        assert 8 - p % 8 - (k - 1) == s + 1;
        assert Pow2(s + 1) == q * 2;
      }
      assert Window(data[p / 8], p % 8, k) == (y / q) % (2 * h);
      WindowStep(y, q, h);
    }
  }

  /** One step of the reader's accumulator: shifting the k-bit-wide value
      read so far left by k (on a uint64, which cannot overflow while at most
      64 bits are read) and or-ing in the next k bits, which land in the zero
      bits the shift leaves, extends the value read by those k bits. */
  lemma Accumulate(data: seq<byte>, offset: nat, done: nat, k: nat, result: nat)
    requires offset + done + k <= 8 * |data| && done + k <= 64
    requires result == BitsValue(data, offset, done)
    ensures Shl64(result, k) == result * Pow2(k) && Shl64(result, k) % Pow2(k) == 0
    ensures Shl64(result, k) + BitsValue(data, offset + done, k) == BitsValue(data, offset, done + k)
  {
    BitsValueSplit(data, offset, done, k);
    NoWrap(result, done, k);
    ModMultiple(Pow2(k), result, result * Pow2(k));
  }

  /** One turn of the reader's loop reads the bits left in the current byte,
      or fewer if fewer remain wanted, and extends the value read so far. */
  lemma ReadStep(data: seq<byte>, offset: nat, count: int, off: nat, remaining: int, result: nat, k: nat)
    requires 0 < remaining <= count <= 64 && off == offset + (count - remaining)
    requires off / 8 < |data|
    requires k == if 8 - off % 8 > remaining then remaining else 8 - off % 8
    requires remaining == count ==> result == 0
    requires remaining < count ==> result == BitsValue(data, offset, count - remaining)
    ensures off + k <= 8 * |data|
    ensures Shl64(result, k) + Window(data[off / 8], off % 8, k) == BitsValue(data, offset, count - remaining + k)
  {
    ByteWindow(data, off, k);
    var done := count - remaining;
    assert done == 0 ==> result == BitsValue(data, offset, done);
    Accumulate(data, offset, done, k, result);
  }

  /** readBits: the loop consumes, from each byte it visits, the bits between
      the current position and the end of the byte or of the request. */
  method ReadBits(data: seq<byte>, offset: nat, count: int) returns (r: ReadOutcome)
    ensures count > 64 ==> r == Fail(TooWide)
    ensures count <= 0 ==> r == Value(0)
    ensures 0 < count <= 64 && offset + count > 8 * |data| ==> r == Fail(NotEnoughData)
    ensures 0 < count <= 64 && offset + count <= 8 * |data| ==> r == Value(BitsValue(data, offset, count))
    ensures r.Value? ==> r.value < TWO_64 && (0 < count < 64 ==> r.value < Pow2(count))
  {
    if count > 64 {
      return Fail(TooWide);
    }
    var result: nat := 0;
    var off := offset;
    var bitsRemaining := count;
    while bitsRemaining > 0
      invariant count <= 0 ==> bitsRemaining == count
      invariant count > 0 ==> 0 <= bitsRemaining <= count
      invariant off == offset + (count - bitsRemaining)
      invariant bitsRemaining == count ==> result == 0
      invariant bitsRemaining < count ==>
        off <= 8 * |data| && result == BitsValue(data, offset, count - bitsRemaining)
      decreases bitsRemaining
    {
      var bytePos := off / 8;
      var bitPos := off % 8;
      if bytePos >= |data| {
        assert offset + count > 8 * |data|;
        return Fail(NotEnoughData);
      }
      var bitsToRead := 8 - bitPos;
      if bitsToRead > bitsRemaining {
        bitsToRead := bitsRemaining;
      }
      var bits := Window(data[bytePos], bitPos, bitsToRead);
      ReadStep(data, offset, count, off, bitsRemaining, result, bitsToRead);
      // (result << bitsToRead) | bits: the shift leaves the low bitsToRead
      // bits zero (Accumulate's first ensures) and bits < 2^bitsToRead
      // (Window's ensures), so the | adds
      result := Shl64(result, bitsToRead) + bits;
      off := off + bitsToRead;
      bitsRemaining := bitsRemaining - bitsToRead;
    }
    if count > 0 {
      Pow2Monotone(count, 64);
      Pow2Is64();
    }
    return Value(result);
  }
}
