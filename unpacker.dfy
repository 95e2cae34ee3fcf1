/** The field walker of bitpacker.go (Unpack): it walks the fields of the
    destination record in declaration order with a running bit cursor, skips
    fields without a `bits` tag, validates each tagged field's width against
    the bits left in the buffer, reads the field's bits with readBits,
    converts the raw value to the field's integer kind and stores it, and
    stops at the first error without undoing what it already stored. */
module Unpacker {
  import opened Arith
  import opened BitReader

  datatype Option<T> = None | Some(value: T)

  /** The kind of a destination field as reflection reports it. Uint and Int
      are the platform-width kinds, 64 bits here; every kind the source's
      switch does not list (floats, strings, bools, ...) is Unsupported. */
  datatype Kind =
    | Uint | Uint8 | Uint16 | Uint32 | Uint64
    | Int | Int8 | Int16 | Int32 | Int64
    | Unsupported

  predicate IsUnsigned(k: Kind)
  {
    k.Uint? || k.Uint8? || k.Uint16? || k.Uint32? || k.Uint64?
  }

  /** Int, Int8, Int16, Int32 and Int64: the integer kinds that are not unsigned. */
  predicate IsSigned(k: Kind)
  {
    k != Unsupported && !IsUnsigned(k)
  }

  /** The width in bits of a field of an integer kind. */
  function TargetWidth(k: Kind): (w: nat)
    requires k != Unsupported
    ensures w == 8 || w == 16 || w == 32 || w == 64
  {
    match k
    case Uint8 | Int8 => 8
    case Uint16 | Int16 => 16
    case Uint32 | Int32 => 32
    case Uint | Uint64 | Int | Int64 => 64
  }

  /** What the tag layer reports for one struct field. */
  datatype Tag =
    | Skip                      // unexported, or without a `bits` tag
    | Bits(count: Option<int>)  // a `bits` tag; None when it is not a decimal integer

  /** One field of the destination record, in declaration order. */
  datatype Field = Field(tag: Tag, kind: Kind)

  /** The errors Unpack returns for a valid destination; `field` is the
      index of the field being processed. */
  datatype UnpackError =
    | InvalidBits(field: nat)                                 // width not an integer, or <= 0
    | NotEnoughBits(field: nat, needed: int, available: int)  // fewer bits left than the width
    | ReadFailed(field: nat, cause: ReadError)                // readBits refused the read
    | UnsupportedType(field: nat, kind: Kind)                 // the field is not an integer

  datatype Status = Ok | Failed(error: UnpackError)

  // ---------------------------------------------------------------------
  // Integer conversions

  /** uintN(x): x taken modulo 2^n, the only value in [0, 2^n) congruent to x. */
  function Unsigned(x: int, n: nat): (u: nat)
    ensures u < Pow2(n) && (x - u) % Pow2(n) == 0
  {
    ModMultiple(Pow2(n), x / Pow2(n), x - x % Pow2(n));
    x % Pow2(n)
  }

  /** intN(x): the two's-complement reading of x modulo 2^n, the only value
      in [-2^(n-1), 2^(n-1)) congruent to x. */
  function Signed(x: int, n: nat): (s: int)
    requires n >= 1
    ensures -Pow2(n - 1) <= s < Pow2(n - 1) && (x - s) % Pow2(n) == 0
  {
    var u := Unsigned(x, n);
    ModSubMultiple(x - u + Pow2(n), Pow2(n), 1);
    if u >= Pow2(n - 1) then u - Pow2(n) else u
  }

  /** Signed(x, n) is the only value of the signed n-bit range congruent to x. */
  lemma SignedUnique(x: int, n: nat, s: int)
    requires n >= 1 && -Pow2(n - 1) <= s < Pow2(n - 1) && (x - s) % Pow2(n) == 0
    ensures s == Signed(x, n)
  {
    var t := Signed(x, n);
    CongruentBoth(x, s, t, Pow2(n));
    CongruentInWindow(t, s, -Pow2(n - 1), Pow2(n));
  }

  /** The value Unpack stores into a field of integer kind k for the raw
      value read: SetUint(uint64(value)) for an unsigned kind and
      SetInt(int64(value)) for a signed one, each of which truncates to the
      field's own width. The field's bit width plays no part: there is no
      sign extension from the top bit of the field. */
  function Coerce(k: Kind, value: nat): (x: int)
    requires k != Unsupported
    ensures IsUnsigned(k) ==> 0 <= x < Pow2(TargetWidth(k))
    ensures IsSigned(k) ==> -Pow2(TargetWidth(k) - 1) <= x < Pow2(TargetWidth(k) - 1)
  {
    var w := TargetWidth(k);
    if IsUnsigned(k) then Unsigned(value, w) else Signed(Signed(value, 64), w)
  }

  /** The conversion wraps at the destination's width: an unsigned kind
      stores value mod 2^N, a signed kind the two's-complement reading of
      value mod 2^N, whatever the int64 intermediate step did. */
  lemma CoerceWrapsAtTarget(k: Kind, value: nat)
    requires k != Unsupported
    ensures IsUnsigned(k) ==> Coerce(k, value) == value % Pow2(TargetWidth(k))
    ensures IsSigned(k) ==> Coerce(k, value) == Signed(value, TargetWidth(k))
  {
    var w := TargetWidth(k);
    if IsSigned(k) {
      SignedOfSigned(value, w, 64);
      assert Coerce(k, value) == Signed(Signed(value, 64), w);
    } else {
      assert Coerce(k, value) == Unsigned(value, w);
    }
  }

  /** Narrowing to w bits after reading modulo 2^m, w <= m, is reading
      modulo 2^w directly. */
  lemma SignedOfSigned(x: int, w: nat, m: nat)
    requires 1 <= w <= m
    ensures Signed(Signed(x, m), w) == Signed(x, w)
  {
    var sm := Signed(x, m);
    var s := Signed(sm, w);
    assert (x - sm) % Pow2(w) == 0 by {
      ModZeroPow2Down(x - sm, w, m);
    }
    assert (x - s) % Pow2(w) == 0 by {
      ModZeroAdd(x - sm, sm - s, Pow2(w));
    }
    SignedUnique(x, w, s);
  }

  /** A value that fits stores unchanged: below 2^N into an unsigned N-bit
      kind, below 2^(N-1) into a signed one. In particular a field narrower
      than a signed destination always stores a non-negative value. */
  lemma CoerceKeepsFittingValue(k: Kind, value: nat)
    requires k != Unsupported
    requires if IsUnsigned(k) then value < Pow2(TargetWidth(k)) else value < Pow2(TargetWidth(k) - 1)
    ensures Coerce(k, value) == value
  {
    var w := TargetWidth(k);
    CoerceWrapsAtTarget(k, value);
    if IsUnsigned(k) {
      DivModUnique(value, Pow2(w), 0, value);
    } else {
      ModSubMultiple(value, Pow2(w), 0);
      assert (value - value) % Pow2(w) == 0;
      SignedUnique(value, w, value);
    }
  }

  /** A field of n bits read into a signed kind wider than n is never
      negative: the top bit of the field is not a sign bit. */
  lemma NoSignExtension(k: Kind, value: nat, n: nat)
    requires IsSigned(k) && n < TargetWidth(k) && value < Pow2(n)
    ensures Coerce(k, value) == value && Coerce(k, value) >= 0
  {
    Pow2Monotone(n, TargetWidth(k) - 1);
    CoerceKeepsFittingValue(k, value);
  }

  // ---------------------------------------------------------------------
  // The walk, as functions of the buffer, the fields and the initial
  // contents of the destination

  /** What one turn of Unpack's loop does with field i when the cursor is at
      bit `cursor`: pass over it, take its width in bits from the buffer, or
      stop with an error. */
  datatype Action = Pass | Take(n: nat) | Stop(error: UnpackError)

  /** The checks of one turn, in the order Unpack makes them. After the
      availability check the reader can only refuse a width over 64, which
      is the error ReadBits returns first. */
  function Decide(data: seq<byte>, fields: seq<Field>, i: nat, cursor: nat): (a: Action)
    requires i < |fields| && cursor <= 8 * |data|
    ensures a.Take? ==> fields[i].kind != Unsupported && a.n <= 64 && cursor + a.n <= 8 * |data|
  {
    match fields[i].tag
    case Skip => Pass
    case Bits(count) =>
      if count.None? || count.value <= 0 then Stop(InvalidBits(i))
      else
        var n := count.value;
        var available := 8 * |data| - cursor;
        if available < n then Stop(NotEnoughBits(i, n, available))
        else if n > 64 then Stop(ReadFailed(i, TooWide))
        else if fields[i].kind == Unsupported then Stop(UnsupportedType(i, fields[i].kind))
        else Take(n)
  }

  /** The control state of the walk: the bit cursor, and Ok while the walk
      goes on or the error that stopped it. */
  datatype Progress = Progress(cursor: nat, status: Status)

  /** One turn of the loop on the control state; a stopped walk stays as it is. */
  function Advance(data: seq<byte>, fields: seq<Field>, i: nat, p: Progress): (q: Progress)
    requires i < |fields| && p.cursor <= 8 * |data|
    ensures q.cursor <= 8 * |data|
  {
    if p.status.Failed? then p
    else
      match Decide(data, fields, i, p.cursor)
      case Pass => p
      case Take(n) => Progress(p.cursor + n, Ok)
      case Stop(e) => Progress(p.cursor, Failed(e))
  }

  /** The control state after the first k fields. The cursor never passes
      the end of the buffer. */
  function Control(data: seq<byte>, fields: seq<Field>, k: nat): (p: Progress)
    requires k <= |fields|
    ensures p.cursor <= 8 * |data|
  {
    if k == 0 then Progress(0, Ok) else Advance(data, fields, k - 1, Control(data, fields, k - 1))
  }

  /** The destination after the first k fields, starting from init: each
      field a turn takes receives the conversion of its bits at the cursor. */
  function Values(data: seq<byte>, fields: seq<Field>, init: seq<int>, k: nat): (v: seq<int>)
    requires k <= |fields| && |init| == |fields|
    ensures |v| == |fields|
  {
    if k == 0 then init
    else
      var v := Values(data, fields, init, k - 1);
      var p := Control(data, fields, k - 1);
      if p.status == Ok && Decide(data, fields, k - 1, p.cursor).Take? then
        var n := Decide(data, fields, k - 1, p.cursor).n;
        v[k - 1 := Coerce(fields[k - 1].kind, BitsValue(data, p.cursor, n))]
      else v
  }

  /** What Unpack leaves in the destination and returns. */
  datatype Unpacked = Unpacked(values: seq<int>, status: Status)

  /** What Unpack does to a destination holding init. */
  function Decode(data: seq<byte>, fields: seq<Field>, init: seq<int>): (u: Unpacked)
    requires |init| == |fields|
    ensures |u.values| == |fields|
  {
    Unpacked(Values(data, fields, init, |fields|), Control(data, fields, |fields|).status)
  }

  /** The bits a field's tag claims. */
  function Claimed(f: Field): (c: int)
    ensures WellFormed(f) ==> 0 <= c <= 64
  {
    match f.tag
    case Skip => 0
    case Bits(count) => if count.Some? then count.value else 0
  }

  /** The sum of the widths of the tagged fields among the first k; over
      well-formed fields it lies between 0 and 64 bits per field. */
  function TaggedWidths(fields: seq<Field>, k: nat): (s: int)
    requires k <= |fields|
    ensures (forall j :: 0 <= j < k ==> WellFormed(fields[j])) ==> 0 <= s <= 64 * k
  {
    if k == 0 then 0 else TaggedWidths(fields, k - 1) + Claimed(fields[k - 1])
  }

  /** A field Unpack can process: skipped, or tagged with a width of
      1..64 bits and of an integer kind. */
  predicate WellFormed(f: Field)
  {
    f.tag.Skip? || (f.tag.count.Some? && 0 < f.tag.count.value <= 64 && f.kind != Unsupported)
  }

  /** values[j] holds what Unpack decodes for the tagged field j: the
      conversion to the field's kind of its bits, which start after the
      widths of all tagged fields before it. */
  predicate HoldsDecoded(data: seq<byte>, fields: seq<Field>, values: seq<int>, j: nat)
    requires j < |fields| && j < |values|
  {
    var off := TaggedWidths(fields, j);
    var f := fields[j];
    f.tag.Bits? && f.tag.count.Some? && 0 < f.tag.count.value <= 64 && f.kind != Unsupported &&
    0 <= off && off + f.tag.count.value <= 8 * |data| &&
    values[j] == Coerce(f.kind, BitsValue(data, off, f.tag.count.value))
  }

  // ---------------------------------------------------------------------
  // Properties of one turn

  /** A turn passes over exactly the skipped fields, and takes exactly the
      well-formed fields whose width fits in the bits left, by that width. */
  lemma DecideTakes(data: seq<byte>, fields: seq<Field>, i: nat, cursor: nat)
    requires i < |fields| && cursor <= 8 * |data|
    ensures Decide(data, fields, i, cursor).Pass? <==> fields[i].tag.Skip?
    ensures Decide(data, fields, i, cursor).Take? <==>
      fields[i].tag.Bits? && WellFormed(fields[i]) && cursor + Claimed(fields[i]) <= 8 * |data|
    ensures Decide(data, fields, i, cursor).Take? ==> Decide(data, fields, i, cursor).n == Claimed(fields[i])
  {
  }

  /** A turn that stops reports the field it processes and says why. */
  lemma DecideStops(data: seq<byte>, fields: seq<Field>, i: nat, cursor: nat)
    requires i < |fields| && cursor <= 8 * |data| && Decide(data, fields, i, cursor).Stop?
    ensures var e := Decide(data, fields, i, cursor).error;
      e.field == i && fields[i].tag.Bits? &&
      (e.InvalidBits? ==> fields[i].tag.count.None? || fields[i].tag.count.value <= 0) &&
      (e.NotEnoughBits? ==>
         fields[i].tag.count == Some(e.needed) && 0 < e.needed &&
         e.available == 8 * |data| - cursor && e.available < e.needed) &&
      (e.ReadFailed? ==>
         e.cause == TooWide && fields[i].tag.count.Some? &&
         64 < fields[i].tag.count.value <= 8 * |data| - cursor) &&
      (e.UnsupportedType? ==>
         e.kind == Unsupported && fields[i].kind == Unsupported &&
         fields[i].tag.count.Some? && 0 < fields[i].tag.count.value <= 64 &&
         fields[i].tag.count.value <= 8 * |data| - cursor)
  {
  }

  // ---------------------------------------------------------------------
  // Properties of the walk

  /** The first error is final: once stopped, the walk changes nothing. */
  lemma {:induction false} FailureIsFinal(data: seq<byte>, fields: seq<Field>, init: seq<int>, j: nat, k: nat)
    requires j <= k <= |fields| && |init| == |fields|
    requires Control(data, fields, j).status.Failed?
    ensures Control(data, fields, k) == Control(data, fields, j)
    ensures Values(data, fields, init, k) == Values(data, fields, init, j)
  {
    if j < k {
      FailureIsFinal(data, fields, init, j, k - 1);
    }
  }

  /** While the walk goes on, the cursor is the sum of the widths of the
      tagged fields processed so far. */
  lemma {:induction false} CursorIsTaggedSum(data: seq<byte>, fields: seq<Field>, k: nat)
    requires k <= |fields| && Control(data, fields, k).status == Ok
    ensures Control(data, fields, k).cursor == TaggedWidths(fields, k)
  {
    if k > 0 {
      DecideTakes(data, fields, k - 1, Control(data, fields, k - 1).cursor);
      CursorIsTaggedSum(data, fields, k - 1);
    }
  }

  /** A field the walk has not reached, and a skipped field, keep their
      initial value. */
  lemma {:induction false} Untouched(data: seq<byte>, fields: seq<Field>, init: seq<int>, k: nat, j: nat)
    requires k <= |fields| && |init| == |fields| && j < |fields|
    requires k <= j || fields[j].tag.Skip?
    ensures Values(data, fields, init, k)[j] == init[j]
  {
    if k > 0 {
      Untouched(data, fields, init, k - 1, j);
      ValuesKeep(data, fields, init, k, j);
    }
  }

  /** Turn k - 1 writes at most field k - 1, and not when it is skipped. */
  lemma ValuesKeep(data: seq<byte>, fields: seq<Field>, init: seq<int>, k: nat, j: nat)
    requires 0 < k <= |fields| && |init| == |fields| && j < |fields|
    requires j != k - 1 || fields[j].tag.Skip?
    ensures Values(data, fields, init, k)[j] == Values(data, fields, init, k - 1)[j]
  {
    if j == k - 1 {
      assert Decide(data, fields, k - 1, Control(data, fields, k - 1).cursor) == Pass;
    }
  }

  /** The walk over the first k fields goes through exactly when each of them
      is well formed and their widths fit in the buffer. */
  lemma {:induction false} SucceedsIff(data: seq<byte>, fields: seq<Field>, k: nat)
    requires k <= |fields|
    ensures Control(data, fields, k).status == Ok <==>
      (forall j :: 0 <= j < k ==> WellFormed(fields[j])) && TaggedWidths(fields, k) <= 8 * |data|
  {
    if k > 0 {
      SucceedsIff(data, fields, k - 1);
      var p := Control(data, fields, k - 1);
      DecideTakes(data, fields, k - 1, p.cursor);
      if p.status == Ok {
        CursorIsTaggedSum(data, fields, k - 1);
      } else if forall j :: 0 <= j < k ==> WellFormed(fields[j]) {
        assert WellFormed(fields[k - 1]);
      }
    }
  }

  /** After a walk that went through the first k fields, each tagged field
      among them holds the conversion of the bits at its offset. */
  lemma {:induction false} DecodedField(data: seq<byte>, fields: seq<Field>, init: seq<int>, k: nat, j: nat)
    requires k <= |fields| && |init| == |fields| && j < k
    requires Control(data, fields, k).status == Ok && fields[j].tag.Bits?
    ensures HoldsDecoded(data, fields, Values(data, fields, init, k), j)
  {
    var p := Control(data, fields, k - 1);
    DecideTakes(data, fields, k - 1, p.cursor);
    if j == k - 1 {
      CursorIsTaggedSum(data, fields, k - 1);
    } else {
      DecodedField(data, fields, init, k - 1, j);
    }
  }

  /** The index of the field at which a stopped walk stopped. */
  lemma {:induction false} FailingStep(data: seq<byte>, fields: seq<Field>, init: seq<int>, k: nat) returns (f: nat)
    requires k <= |fields| && |init| == |fields|
    requires Control(data, fields, k).status.Failed?
    ensures f < k && Control(data, fields, f).status == Ok
    ensures Control(data, fields, k) == Control(data, fields, f + 1)
    ensures Values(data, fields, init, k) == Values(data, fields, init, f + 1)
  {
    if Control(data, fields, k - 1).status.Failed? {
      f := FailingStep(data, fields, init, k - 1);
      FailureIsFinal(data, fields, init, k - 1, k);
    } else {
      f := k - 1;
    }
  }

  /** The error the walk stops with names the first field it could not
      process and says why; the destination is as it stood before that
      field. */
  lemma FirstError(data: seq<byte>, fields: seq<Field>, init: seq<int>, k: nat)
    requires k <= |fields| && |init| == |fields|
    requires Control(data, fields, k).status.Failed?
    ensures var e := Control(data, fields, k).status.error;
      var f := e.field;
      f < k && Control(data, fields, f).status == Ok &&
      Values(data, fields, init, k) == Values(data, fields, init, f) &&
      fields[f].tag.Bits? &&
      (e.InvalidBits? ==> fields[f].tag.count.None? || fields[f].tag.count.value <= 0) &&
      (e.NotEnoughBits? ==>
         fields[f].tag.count == Some(e.needed) && 0 < e.needed &&
         e.available == 8 * |data| - TaggedWidths(fields, f) && e.available < e.needed) &&
      (e.ReadFailed? ==>
         e.cause == TooWide && fields[f].tag.count.Some? &&
         64 < fields[f].tag.count.value <= 8 * |data| - TaggedWidths(fields, f)) &&
      (e.UnsupportedType? ==>
         e.kind == Unsupported && fields[f].kind == Unsupported &&
         fields[f].tag.count.Some? && 0 < fields[f].tag.count.value <= 64 &&
         fields[f].tag.count.value <= 8 * |data| - TaggedWidths(fields, f))
  {
    var f := FailingStep(data, fields, init, k);
    CursorIsTaggedSum(data, fields, f);
    DecideStops(data, fields, f, Control(data, fields, f).cursor);
  }

  /** A failed Unpack keeps what it stored (there is no rollback): every
      tagged field before the failing one holds its decoded value. */
  lemma FailureKeepsEarlierFields(data: seq<byte>, fields: seq<Field>, init: seq<int>, j: nat)
    requires |init| == |fields| && j < |fields|
    requires Decode(data, fields, init).status.Failed?
    requires j < Decode(data, fields, init).status.error.field && fields[j].tag.Bits?
    ensures HoldsDecoded(data, fields, Decode(data, fields, init).values, j)
  {
    FirstError(data, fields, init, |fields|);
    DecodedField(data, fields, init, Decode(data, fields, init).status.error.field, j);
  }

  /** A failed Unpack leaves the failing field, every later field and every
      skipped field as they were. */
  lemma FailureLeavesLaterFields(data: seq<byte>, fields: seq<Field>, init: seq<int>, j: nat)
    requires |init| == |fields| && j < |fields|
    requires Decode(data, fields, init).status.Failed?
    requires Decode(data, fields, init).status.error.field <= j || fields[j].tag.Skip?
    ensures Decode(data, fields, init).values[j] == init[j]
  {
    FirstError(data, fields, init, |fields|);
    Untouched(data, fields, init, Decode(data, fields, init).status.error.field, j);
  }

  /** A successful Unpack fills every tagged field with its decoded value
      and leaves every skipped one as it was. */
  lemma SuccessFillsTaggedFields(data: seq<byte>, fields: seq<Field>, init: seq<int>, j: nat)
    requires |init| == |fields| && j < |fields|
    requires Control(data, fields, |fields|).status == Ok  // Decode's status
    ensures fields[j].tag.Bits? ==> HoldsDecoded(data, fields, Decode(data, fields, init).values, j)
    ensures fields[j].tag.Skip? ==> Decode(data, fields, init).values[j] == init[j]
  {
    if fields[j].tag.Bits? {
      DecodedField(data, fields, init, |fields|, j);
    } else {
      Untouched(data, fields, init, |fields|, j);
    }
  }

  // ---------------------------------------------------------------------
  // The method

  /** A turn that takes field i moves the cursor by the width taken and
      stores the decoded value in field i. */
  lemma TurnTakes(data: seq<byte>, fields: seq<Field>, init: seq<int>, i: nat, n: nat)
    requires i < |fields| && |init| == |fields| && Control(data, fields, i).status == Ok
    requires Decide(data, fields, i, Control(data, fields, i).cursor) == Take(n)
    ensures Control(data, fields, i + 1) == Progress(Control(data, fields, i).cursor + n, Ok)
    ensures Values(data, fields, init, i + 1) ==
      Values(data, fields, init, i)[i := Coerce(fields[i].kind, BitsValue(data, Control(data, fields, i).cursor, n))]
  {
  }

  /** A turn that passes over field i changes nothing. */
  lemma TurnPasses(data: seq<byte>, fields: seq<Field>, init: seq<int>, i: nat)
    requires i < |fields| && |init| == |fields| && Control(data, fields, i).status == Ok
    requires Decide(data, fields, i, Control(data, fields, i).cursor) == Pass
    ensures Control(data, fields, i + 1) == Control(data, fields, i)
    ensures Values(data, fields, init, i + 1) == Values(data, fields, init, i)
  {
  }

  /** A turn that stops at field i records the error and changes no value. */
  lemma TurnStops(data: seq<byte>, fields: seq<Field>, init: seq<int>, i: nat, e: UnpackError)
    requires i < |fields| && |init| == |fields| && Control(data, fields, i).status == Ok
    requires Decide(data, fields, i, Control(data, fields, i).cursor) == Stop(e)
    ensures Control(data, fields, i + 1) == Progress(Control(data, fields, i).cursor, Failed(e))
    ensures Values(data, fields, init, i + 1) == Values(data, fields, init, i)
  {
  }

  /** ... and so decides what Unpack returns: that error, with the
      destination as it stood before the turn. */
  lemma StopIsFinal(data: seq<byte>, fields: seq<Field>, init: seq<int>, i: nat, e: UnpackError)
    requires i < |fields| && |init| == |fields| && Control(data, fields, i).status == Ok
    requires Decide(data, fields, i, Control(data, fields, i).cursor) == Stop(e)
    ensures Control(data, fields, |fields|).status == Failed(e)
    ensures Values(data, fields, init, |fields|) == Values(data, fields, init, i)
  {
    TurnStops(data, fields, init, i, e);
    FailureIsFinal(data, fields, init, i + 1, |fields|);
  }

  /** Unpack over a destination whose fields are dest[0..|fields|): it
      writes dest in place and returns Ok or the first error. */
  method Unpack(data: seq<byte>, fields: seq<Field>, dest: array<int>) returns (status: Status)
    requires dest.Length == |fields|
    modifies dest
    ensures status == Decode(data, fields, old(dest[..])).status
    ensures dest[..] == Decode(data, fields, old(dest[..])).values
  {
    ghost var init := dest[..];
    var bitOffset: nat := 0;
    for i: nat := 0 to |fields|
      invariant Control(data, fields, i).status == Ok
      invariant bitOffset == Control(data, fields, i).cursor
      invariant dest[..] == Values(data, fields, init, i)
    {
      var field := fields[i];
      if field.tag.Skip? {
        TurnPasses(data, fields, init, i);
        continue;
      }
      var count := field.tag.count;
      if count.None? || count.value <= 0 {
        status := Failed(InvalidBits(i));
        StopIsFinal(data, fields, init, i, InvalidBits(i));
        return;
      }
      var bitCount := count.value;
      var bitsAvailable := |data| * 8 - bitOffset;
      if bitsAvailable < bitCount {
        status := Failed(NotEnoughBits(i, bitCount, bitsAvailable));
        StopIsFinal(data, fields, init, i, NotEnoughBits(i, bitCount, bitsAvailable));
        return;
      }
      var r := ReadBits(data, bitOffset, bitCount);
      if r.Fail? {
        status := Failed(ReadFailed(i, r.error));
        StopIsFinal(data, fields, init, i, ReadFailed(i, r.error));
        return;
      }
      var value := r.value;
      if field.kind == Unsupported {
        status := Failed(UnsupportedType(i, field.kind));
        StopIsFinal(data, fields, init, i, UnsupportedType(i, field.kind));
        return;
      }
      TurnTakes(data, fields, init, i, bitCount);
      dest[i] := Coerce(field.kind, value);
      bitOffset := bitOffset + bitCount;
    }
    status := Ok;
  }
}
