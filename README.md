# go-bitpacker in Dafny

A model of the bit-field decoder of `bitpacker.go`, with proofs about it.

The decoder has two parts:

- **`readBits`** takes up to 64 bits from a byte buffer, starting at any bit
  offset. It reads the most significant bit first within each byte and the
  bytes in buffer order. It returns the bits as a `uint64` whose high-order
  bits are the ones read first.
- **`Unpack`** walks the fields of a destination record in declaration order
  with a running bit cursor:
  - it skips fields that have no `bits` tag;
  - it checks each tagged field's width against the bits left in the buffer;
  - it reads the field's bits and converts them to the field's integer kind,
    then stores the result in the field;
  - it stops at the first error and keeps what it has already stored.

The model has four modules:

- `Arith` (`arith.dfy`): powers of two and Euclidean division facts. The bit
  operations rest on these.
  - `x >> s` is modelled as `x / 2^s`.
  - `x & (2^k - 1)` is modelled as `x % 2^k`.
  - `x << k` on a `uint64` is modelled as `(x * 2^k) % 2^64`.
- `BitReader` (`bitreader.dfy`): the byte type, the reader's errors, and the
  pure specification `BitsValue`. `BitsValue(data, off, n)` is the sum of
  `Bit(data, off + j) * 2^(n-1-j)` over `j < n`, where bit `i` is
  `(data[i / 8] >> (7 - i % 8)) & 1`. The module also holds `ReadBits`, the
  reader's loop, written as a method and proved against `BitsValue`.
- `Unpacker` (`unpacker.dfy`) models the walk.
  - A record is a sequence of field descriptors. Each descriptor has a tag:
    `Skip`, or `Bits(count)`, where `count` is `None` when the tag is not a
    decimal integer.
  - Each descriptor also has an integer `Kind` as reflection reports it.
  - The destination is an `array<int>` that the `Unpack` method writes in
    place.
  - The method is proved against `Decode`, a pure function of:
    - the buffer;
    - the descriptors;
    - the destination's initial contents.
  - `Decode` is built from two parts:
    - `Control` holds the cursor and the status after `k` fields;
    - `Values` holds the destination after `k` fields.
  - Both are driven by `Decide`, which makes one turn's checks in the
    source's order.
  - The module's lemmas state the properties of the walk:
    - the cursor is the sum of the tagged widths;
    - the walk succeeds exactly when every field is well formed and the tagged widths fit in the buffer;
    - the first error is final and names its field;
    - there is no rollback;
    - skipped fields are untouched.
  - They also state the properties of the conversion: it wraps at the
    destination's width, not at the field's width.
- `Scenarios` (`scenarios.dfy`): the cases of the repository's tests, stated
  about `Decode`.

The conversion models Go exactly:

- An unsigned kind stores `SetUint(uint64(value))`, which truncates to the
  field's width.
- A signed kind stores `SetInt(int64(value))`, which first reads the value as
  an `int64` and then truncates to the field's width.
- `CoerceWrapsAtTarget` proves that the two steps together give the
  two's-complement reading of `value mod 2^N`.

## Model

| member | source | states |
|---|---|---|
| BitReader.ReadBits | bitpacker.go:83-120 | A width over 64 fails with TooWide whatever the buffer holds. A width <= 0 gives 0. For a width of 1..64, it fails with NotEnoughData exactly when offset + count passes the end of the buffer. Otherwise it returns the big-endian value of bits offset .. offset+count-1. Any value it returns is < 2^64, and < 2^count for a count below 64. |
| BitReader.Bit | bitpacker.go:93-94 | Bit i of the buffer, (data[i / 8] >> (7 - i % 8)) & 1, taken from byte i / 8 at position i % 8 counted from the top, is 0 or 1. |
| BitReader.Window | bitpacker.go:108-109 | (b >> (8 - pos - k)) & ((1 << k) - 1) on a byte is below 2^k: the mask keeps k bits. |
| BitReader.Shl64 | bitpacker.go:112 | x << k on a uint64 stays below 2^64. |
| BitReader.BitsValue | bitpacker.go:108-112 | The value of n bits read is below 2^n: no stray high bits. |
| BitReader.BitsValueSplit | bitpacker.go:112 | Reading m + k bits is reading m bits, shifting them up by k and adding the next k bits. |
| BitReader.MsbFirst | bitpacker.go:109-112 | The first bit read is the most significant bit of the value. |
| BitReader.BitOfValue | bitpacker.go:101-112 | The j-th bit read is bit n-1-j of the value, so nothing is lost, duplicated or reordered. |
| BitReader.ByteWindow | bitpacker.go:108-109 | Shifting a byte right by 8 - pos - k and masking to k bits gives the k buffer bits starting at bit position pos of that byte. |
| BitReader.Accumulate | bitpacker.go:112 | (result << k) \| bits on a uint64 extends the value read so far by the next k bits when at most 64 bits are read in all. The shift does not wrap (it equals result * 2^k) and leaves its low k bits zero, so the or of the next k bits is their sum. |
| BitReader.ReadStep | bitpacker.go:100-116 | One turn of the reader's loop takes the rest of the current byte, or fewer bits if fewer are wanted, and extends the value read so far. |
| Unpacker.TargetWidth | bitpacker.go:66-68 | The width of each integer kind of the switch is 8, 16, 32 or 64 bits: the N of uintN/intN, and 64 for the platform-width uint and int. |
| Unpacker.Unsigned | bitpacker.go:67 | uintN(x) is the value in [0, 2^N) congruent to x mod 2^N. |
| Unpacker.Signed | bitpacker.go:69 | intN(x) is a value in [-2^(N-1), 2^(N-1)) congruent to x mod 2^N. |
| Unpacker.SignedUnique | bitpacker.go:69 | Signed(x, N) is the only value of the signed N-bit range congruent to x. |
| Unpacker.Coerce | bitpacker.go:65-69 | The stored value lies in the range of the destination kind: [0, 2^N) when unsigned, [-2^(N-1), 2^(N-1)) when signed. |
| Unpacker.CoerceWrapsAtTarget | bitpacker.go:65-69 | An unsigned N-bit kind stores value mod 2^N. A signed N-bit kind stores the two's-complement reading of value mod 2^N, whatever the int64 step did. |
| Unpacker.SignedOfSigned | bitpacker.go:69 | Truncating an int64 reading to N <= 64 bits is the N-bit reading of the original value. |
| Unpacker.CoerceKeepsFittingValue | bitpacker.go:65-69 | A value that fits the destination is stored unchanged: below 2^N for unsigned kinds, below 2^(N-1) for signed ones. |
| Unpacker.NoSignExtension | bitpacker.go:68-69 | An n-bit field read into a signed kind wider than n bits is stored unchanged and is never negative. |
| Unpacker.Decide | bitpacker.go:34-73 | The checks of one turn, in the source's order. When a turn takes bits, the kind is an integer kind, the width is at most 64 and the width fits in the bits left. |
| Unpacker.Advance | bitpacker.go:30-77 | One turn of the loop never moves the cursor past the end of the buffer. |
| Unpacker.Control | bitpacker.go:27-77 | The cursor after any number of fields stays within the buffer. |
| Unpacker.Values | bitpacker.go:30-77 | The destination keeps its length: one value per field. |
| Unpacker.Decode | bitpacker.go:13-80 | What Unpack leaves in the destination and returns, with one value per field. |
| Unpacker.Claimed | bitpacker.go:46-49 | The width a field's tag claims, 0 for a skipped field or an unparsable tag; a well-formed field claims 0..64 bits. |
| Unpacker.TaggedWidths | bitpacker.go:27-76 | The sum of the widths of the tagged fields among the first k: the cursor's value while the walk goes on. Over well-formed fields it lies between 0 and 64k. |
| Unpacker.DecideTakes | bitpacker.go:34-76 | A turn passes over exactly the skipped fields. It takes bits exactly for a tagged field that is well formed and whose width fits in the bits left. A well-formed field has a width of 1..64 and an integer kind. A taken field's width is the width its tag claims. |
| Unpacker.DecideStops | bitpacker.go:46-72 | A turn that stops names its field. For each error it says why: the width is not an integer or is <= 0; or there are fewer bits available (8 * len(data) - cursor) than needed, with both counts reported; or the width is over 64 for readBits; or the kind is not an integer kind while the width is 1..64 and fits in the bits left, so a field that also lacks data reports NotEnoughBits. |
| Unpacker.FailureIsFinal | bitpacker.go:47-72 | Once the walk has stopped, later fields change neither the status, the cursor nor the destination. |
| Unpacker.CursorIsTaggedSum | bitpacker.go:27-76 | While the walk goes on, the cursor is the sum of the widths of the tagged fields processed so far. |
| Unpacker.Untouched | bitpacker.go:34-43 | Fields the walk has not reached keep their initial value, and so do skipped fields. |
| Unpacker.ValuesKeep | bitpacker.go:34-43 | A turn writes at most its own field, and does not write it when the field is skipped. |
| Unpacker.SucceedsIff | bitpacker.go:46-56 | The walk over the first k fields succeeds if and only if each of them is well formed and their tagged widths fit in the buffer. |
| Unpacker.DecodedField | bitpacker.go:52-76 | After a walk that succeeded, each tagged field holds the conversion of its bits, which start after the widths of all tagged fields before it. |
| Unpacker.FailingStep | bitpacker.go:47-72 | A stopped walk stopped at one field, before which it was still going. |
| Unpacker.FirstError | bitpacker.go:46-72 | The error Unpack returns names the first field it could not process and says why, with the available bits counted from the tagged widths before that field. UnsupportedType is reported only for a width of 1..64 that fits in those bits. The destination is as it stood before that field. |
| Unpacker.FailureKeepsEarlierFields | bitpacker.go:59-72 | A failed Unpack does not roll back: every tagged field before the failing one holds its decoded value. |
| Unpacker.FailureLeavesLaterFields | bitpacker.go:46-72 | A failed Unpack leaves the failing field, every later field and every skipped field as they were. |
| Unpacker.SuccessFillsTaggedFields | bitpacker.go:30-79 | A successful Unpack fills every tagged field with its decoded value and leaves every skipped field as it was. |
| Unpacker.TurnTakes | bitpacker.go:59-76 | A turn that takes field i moves the cursor by the field's width and stores the converted bits in field i. |
| Unpacker.TurnPasses | bitpacker.go:34-43 | A turn over a skipped field changes neither the cursor nor the destination. |
| Unpacker.TurnStops | bitpacker.go:46-73 | A turn that stops records its error and changes no value. |
| Unpacker.StopIsFinal | bitpacker.go:46-73 | A turn that stops decides what Unpack returns: that error, and the destination as it stood before the turn. |
| Unpacker.Unpack | bitpacker.go:13-80 | The method returns the status of Decode and leaves the destination holding Decode's values for its initial contents. |
| Scenarios.TakeInByte | bitpacker.go:101-112 | A turn that reads a field lying within one byte, into a kind that holds the field's width, stores the byte's window of bits unchanged. |
| Scenarios.TakeByte | bitpacker.go:101-112 | A turn that reads a whole 8-bit field that starts on a byte boundary stores that byte. |
| Scenarios.SingleByte | bitpacker_test.go:32-39 | [0b10101010] decodes into one 8-bit field as 170, with no error. |
| Scenarios.MultipleFieldsAcrossBytes | bitpacker_test.go:40-52 | [0b11011010, 0b10101100] with widths 4, 4, 6 and 2 decodes as 13, 10, 43 and 0, with no error. |
| Scenarios.MixedIntegerKinds | bitpacker_test.go:53-64 | [0b11011010, 0b10101100, 0b11111111] into uint8, int16 and uint32 decodes as 218, 172 and 255. The int16 value is not negative. |
| Scenarios.NotEnoughData | bitpacker_test.go:65-72 | The widths 4, 4, 6 and 2 over one byte fail at the third field with 6 bits needed and 0 available. The first two fields keep 13 and 10. |
| Scenarios.InvalidBitsTag | bitpacker_test.go:128-136 | A `bits` tag that is not a number fails at the first field and stores nothing. |

## Left out

- The reflection checks on the destination (bitpacker.go:15-24) are not modelled. The model starts from a destination that is already valid: an array with one slot per field.
- The struct-tag lookup and the exported-field test (bitpacker.go:35-43) are not modelled. Their outcome appears only as the `Skip` tag.
- `strconv.Atoi` (bitpacker.go:46) is a library call. Its outcome is modelled as `Option<int>`, with `None` for a tag that does not parse.
- Error messages built with `fmt.Errorf`, and the wrapping of the reader's error with `%w`, are not modelled. Errors are datatype variants that carry:
  - the field index;
  - the needed and available bit counts;
  - the reader's error;
  - the unsupported kind.
- The platform-width kinds `reflect.Uint` and `reflect.Int` are fixed at 64 bits. All kinds the switch does not name are merged into one `Unsupported` kind.
- Widths over 64: `Unpack`'s own width check (bitpacker.go:47) refuses only widths <= 0, so it accepts a width over 64; readBits refuses it (bitpacker.go:84-86).
  - If the buffer is too short, the availability check fails first with NotEnoughBits.
  - Otherwise readBits refuses the read, and `Unpack` returns its error wrapped: ReadFailed(TooWide).
  - The model follows the code.
- BitReader.ReadBits: `offset` is a `nat`, so negative offsets are not modelled; `Unpack` never passes one. Go's `/` and `%` truncate toward zero, so an offset of -7..-1 gives `bytePos` 0 and a negative `bitPos`. Such a call reads from byte 0 without panicking, for example `readBits([]byte{0xFF}, -1, 1)` returns 0, and on an empty buffer it returns the not-enough-data error (bitpacker.go:96-97). Only an offset of -8 or less indexes before the buffer and panics.
- Unpacker.Unpack: Go's `int` overflow of `len(data) * 8` for buffers near 2^60 bytes is not modelled; integers are unbounded.
- The reader's NotEnoughData error cannot reach `Unpack`, because the availability check comes first. The method keeps the branch, and its proof shows that any read that fails there is refused as TooWide.
- The Go test harness (bitpacker_test.go) is not modelled. Its cases appear only as the lemmas in `Scenarios`.
- The cases in bitpacker_test.go:103-126 test a nil, non-pointer or non-struct destination. They are about the reflection checks above and have no counterpart.
