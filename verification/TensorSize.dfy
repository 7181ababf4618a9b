/** Sizes of tensors in bytes, in `size_t` arithmetic that must not wrap silently. */
module TensorSize {
  import opened Common

  const HALF_WORD: nat := 0x1_0000_0000

  /** Conversion of an `int` to `size_t`: negative values wrap around. */
  function ToSizeT(x: int): (r: SizeT)
    ensures 0 <= x <= SIZE_MAX ==> r == x
    ensures x < 0 && -x <= SIZE_MAX ==> r == x + (SIZE_MAX + 1)
  {
    x % (SIZE_MAX + 1)
  }

  /** The product as it is stored, and whether an overflow was noticed. */
  function MultiplyAndCheckOverflow(a: SizeT, b: SizeT): (Status, SizeT) {
    var product := ToSizeT(a * b);
    if (a / HALF_WORD != 0 || b / HALF_WORD != 0) && a != 0 && product / a != b then (Error, product)
    else (Ok, product)
  }

  lemma SmallFactorsFit(a: nat, b: nat)
    requires a < HALF_WORD && b < HALF_WORD
    ensures a * b <= SIZE_MAX
  {
    MulMonotonic(a, b, HALF_WORD - 1);
  }

  lemma DivisionUndoesMultiplication(a: nat, b: nat)
    requires a != 0
    ensures ToSizeT(a * b) / a == b ==> a * b <= SIZE_MAX
    ensures (a * b) / a == b
  {
    DivModUnique(a * b, a, b, 0);
    var p := ToSizeT(a * b);
    assert p == a * (p / a) + p % a;
  }

  /** The check fails exactly when the true product is no `size_t`, also on the path without a division. */
  lemma MultiplyIsExact(a: SizeT, b: SizeT)
    ensures MultiplyAndCheckOverflow(a, b).0.Ok? <==> a * b <= SIZE_MAX
    ensures a * b <= SIZE_MAX ==> MultiplyAndCheckOverflow(a, b).1 == a * b
  {
    if a < HALF_WORD && b < HALF_WORD {
      SmallFactorsFit(a, b);
    }
    if a != 0 {
      DivisionUndoesMultiplication(a, b);
    }
  }

  datatype TensorType =
    | Float32 | Int32 | UInt32 | UInt8 | Int64 | UInt64 | Bool | Complex64 | Complex128
    | UInt16 | Int16 | Int8 | Float16 | BFloat16 | Float64 | UInt4 | Int4 | Int2
    | Unsupported

  /** Bytes of one element when it is not packed; None for types without a fixed size. */
  function GetSizeOfType(t: TensorType): Option<SizeT> {
    match t
    case Float32 => Some(4)
    case Int32 => Some(4)
    case UInt32 => Some(4)
    case UInt8 => Some(1)
    case Int64 => Some(8)
    case UInt64 => Some(8)
    case Bool => Some(1)
    case Complex64 => Some(8)
    case Complex128 => Some(16)
    case UInt16 => Some(2)
    case Int16 => Some(2)
    case Int8 => Some(1)
    case Float16 => Some(2)
    case BFloat16 => Some(2)
    case Float64 => Some(8)
    case UInt4 => Some(1)
    case Int4 => Some(1)
    case Int2 => Some(1)
    case Unsupported => None
  }

  /** Bits one element takes in a tensor: the small integers are packed. */
  ghost function PackedBits(t: TensorType): nat {
    match t
    case Int2 => 2
    case UInt4 | Int4 => 4
    case UInt8 | Int8 | Bool => 8
    case UInt16 | Int16 | Float16 | BFloat16 => 16
    case UInt32 | Int32 | Float32 => 32
    case UInt64 | Int64 | Float64 | Complex64 => 64
    case Complex128 => 128
    case Unsupported => 0
  }

  /** Bytes one element takes before packing: those of its bits, at least one. */
  lemma SizesOfTypes(t: TensorType)
    ensures GetSizeOfType(t) == if t == Unsupported then None else Some((PackedBits(t) + 7) / 8)
  {
  }

  /** The number of elements of a tensor with these dimensions. */
  ghost function Count(dims: seq<int>): nat {
    if dims == [] then 1 else Count(dims[..|dims| - 1]) * ToSizeT(dims[|dims| - 1])
  }

  ghost predicate CountsFit(dims: seq<int>) {
    forall k :: 0 <= k <= |dims| ==> Count(dims[..k]) <= SIZE_MAX
  }

  /** The rounding addition of the packed types must not wrap. */
  ghost predicate RoundingFits(t: TensorType, count: nat) {
    && (t.UInt4? || t.Int4? ==> count <= SIZE_MAX - 1)
    && (t.Int2? ==> count <= SIZE_MAX - 3)
  }

  /** The size the code reports for a byte count that treats every element as unpacked. */
  function Pack(t: TensorType, bytes: SizeT): SizeT {
    if t.Int4? || t.UInt4? then ToSizeT(bytes + 1) / 2
    else if t.Int2? then ToSizeT(bytes + 3) / 4
    else bytes
  }

  /** The size in bytes that the code reports: the bits rounded up, or 0 when the rounding wraps. */
  ghost function ReportedBytes(t: TensorType, count: nat): nat {
    if RoundingFits(t, count) then (PackedBits(t) * count + 7) / 8 else 0
  }

  /** Packing rounds the bit count up to bytes unless its rounding addition wraps. */
  lemma PackRoundsUp(t: TensorType, size: nat, count: nat)
    requires t != Unsupported && size == (PackedBits(t) + 7) / 8 && size * count <= SIZE_MAX
    ensures Pack(t, size * count) == ReportedBytes(t, count)
  {
    hide Pack, ReportedBytes;
    if t.Int2? || t.UInt4? || t.Int4? {
      assert size * count == count by { assert size == 1; }
      PackSmall(t, count);
    } else {
      PackWhole(t, size, count);
    }
  }

  lemma PackWhole(t: TensorType, size: nat, count: nat)
    requires !t.Int2? && !t.UInt4? && !t.Int4? && PackedBits(t) == 8 * size && size * count <= SIZE_MAX
    ensures Pack(t, size * count) == ReportedBytes(t, count)
  {
    hide PackedBits;
    WholeBytes(size, count);
  }

  lemma PackSmall(t: TensorType, count: nat)
    requires t.Int2? || t.UInt4? || t.Int4?
    requires count <= SIZE_MAX
    ensures Pack(t, count) == ReportedBytes(t, count)
  {
  }

  /** Whole bytes need no rounding. */
  lemma WholeBytes(size: nat, count: nat)
    ensures (8 * size * count + 7) / 8 == size * count
  {
    assert 8 * size * count == 8 * (size * count);
  }

  /** The element count, or an error as soon as a running product does not fit. */
  method CountElements(dims: seq<int>) returns (status: Status, count: SizeT)
    ensures status.Ok? <==> CountsFit(dims)
    ensures status.Ok? ==> count == Count(dims)
  {
    count := 1;
    var k := 0;
    while k < |dims|
      invariant 0 <= k <= |dims|
      invariant count == Count(dims[..k])
      invariant forall j :: 0 <= j <= k ==> Count(dims[..j]) <= SIZE_MAX
    {
      var (ok, product) := MultiplyAndCheckOverflow(count, ToSizeT(dims[k]));
      MultiplyIsExact(count, ToSizeT(dims[k]));
      assert dims[..k + 1][..k] == dims[..k];
      if ok != Ok {
        return Error, product;
      }
      count := product;
      k := k + 1;
    }
    assert dims[..k] == dims;
    return Ok, count;
  }

  /**
   * Succeeds exactly when the type has a size and every running product and the byte count
   * fit a `size_t`; the answer is then the packed size in bytes, rounded up, exactly when the
   * rounding addition does not wrap.
   */
  method BytesRequired(t: TensorType, dims: seq<int>) returns (status: Status, bytes: SizeT)
    ensures status.Ok? <==>
            t != Unsupported && CountsFit(dims) && (PackedBits(t) + 7) / 8 * Count(dims) <= SIZE_MAX
    ensures status.Ok? ==> bytes == ReportedBytes(t, Count(dims))
    ensures status.Ok? ==> (bytes == (PackedBits(t) * Count(dims) + 7) / 8 <==> RoundingFits(t, Count(dims)))
  {
    bytes := 0;
    var ok, count := CountElements(dims);
    if ok != Ok {
      return Error, bytes;
    }
    var typeSize := GetSizeOfType(t);
    SizesOfTypes(t);
    if typeSize.None? {
      return Error, bytes;
    }
    MultiplyIsExact(typeSize.value, count);
    var product := MultiplyAndCheckOverflow(typeSize.value, count);
    bytes := product.1;
    if product.0 != Ok {
      return Error, bytes;
    }
    PackRoundsUp(t, typeSize.value, count);
    bytes := Pack(t, bytes);
    return Ok, bytes;
  }

  /**
   * Non-negative dimensions are used as they are; these four, all `int` values, describe a
   * tensor of 2^64 - 1 elements, whose 4-bit packing is reported as 0 bytes.
   */
  lemma RoundingCanWrap()
    ensures var dims := [65535, 65537, 641, 6700417];
            Count(dims) == SIZE_MAX && !RoundingFits(Int4, Count(dims)) && ToSizeT(Count(dims) + 1) / 2 == 0
  {
    var dims := [65535, 65537, 641, 6700417];
    assert dims[..3] == [65535, 65537, 641] && dims[..3][..2] == [65535, 65537];
    assert [65535, 65537][..1] == [65535] && [65535][..0] == [];
    assert Count([65535]) == 65535;
    assert Count([65535, 65537]) == 65535 * 65537;
    assert Count([65535, 65537, 641]) == 65535 * 65537 * 641;
  }
}
