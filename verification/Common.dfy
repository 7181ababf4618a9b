/** Values shared by every component: machine sizes, node numbers, statuses. */
module Common {

  /** Largest value of `size_t` on the 64-bit targets the runtime is built for. */
  const SIZE_MAX: nat := 0xFFFF_FFFF_FFFF_FFFF

  /** A `size_t`; every operation that could wrap is written out where it is used. */
  type SizeT = n: nat | n <= SIZE_MAX

  /** INT32_MAX, used by the planners as "no node yet" and as "until the end of the run". */
  const NODE_NOT_ASSIGNED: int := 0x7FFF_FFFF

  /** Index of an absent optional tensor. */
  const OPTIONAL_TENSOR: int := -1

  /** The null pointer. */
  const NULL_PTR: nat := 0

  datatype Status = Ok | Error

  datatype Option<+T> = None | Some(value: T)

  function Max(a: nat, b: nat): nat {
    if a < b then b else a
  }

  function Min(a: int, b: int): int {
    if a < b then a else b
  }

  /** The first position of `t`. */
  function FirstAt(inputs: seq<int>, t: int): (i: nat)
    requires t in inputs
    ensures i < |inputs| && inputs[i] == t
  {
    if inputs[0] == t then 0 else 1 + FirstAt(inputs[1..], t)
  }

  /** Addition that fails instead of wrapping. */
  function CheckedAdd(lhs: SizeT, rhs: SizeT): (r: Option<SizeT>)
    ensures r.Some? <==> lhs + rhs < 0x1_0000_0000_0000_0000
    ensures r.Some? ==> r.value == lhs + rhs
  {
    if lhs > SIZE_MAX - rhs then None else Some(lhs + rhs)
  }

  /** Rounds `offset` up to a multiple of `alignment`; fails if that is impossible or does not fit. */
  function CheckedAlignTo(alignment: SizeT, offset: SizeT): (r: Option<SizeT>)
    ensures r.Some? ==> alignment != 0 && r.value % alignment == 0 && offset <= r.value < offset + alignment
  {
    if alignment == 0 then None
    else
      var remainder := offset % alignment;
      if remainder == 0 then Some(offset)
      else
        AlignedAbove(offset, alignment);
        CheckedAdd(offset, alignment - remainder)
  }

  lemma AlignedAbove(offset: nat, alignment: nat)
    requires alignment != 0
    ensures (offset + (alignment - offset % alignment)) % alignment == 0
  {
    var q := offset / alignment;
    assert offset == alignment * q + offset % alignment;
    assert offset + (alignment - offset % alignment) == alignment * (q + 1);
    MultipleHasNoRemainder(alignment, q + 1);
  }

  lemma MultipleHasNoRemainder(a: nat, k: nat)
    requires a != 0
    ensures (a * k) % a == 0
  {
    DivModUnique(a * k, a, k, 0);
  }

  /** Quotient and remainder are determined by `n == d * q + r` with `r` below `d`. */
  lemma DivModUnique(n: int, d: nat, q: int, r: nat)
    requires d != 0 && r < d && n == d * q + r
    ensures n / d == q && n % d == r
  {
    var q', r' := n / d, n % d;
    assert n == d * q' + r';
    assert d * (q - q') == r' - r;
    if q - q' >= 1 {
      MulMonotonic(d, 1, q - q');
      assert false;
    }
    if q - q' <= -1 {
      MulMonotonic(d, q - q', -1);
      assert false;
    }
  }

  /**
   * `CheckedAlignTo` returns the least multiple of the alignment that is not below the
   * offset, and fails exactly when the alignment is zero or that multiple is no `size_t`.
   */
  lemma AlignToIsLeast(alignment: SizeT, offset: SizeT, multiple: nat)
    requires alignment != 0 && multiple % alignment == 0 && offset <= multiple
    ensures CheckedAlignTo(alignment, offset).Some? ==> CheckedAlignTo(alignment, offset).value <= multiple
    ensures CheckedAlignTo(alignment, offset).None? ==> SIZE_MAX < multiple
  {
    var remainder := offset % alignment;
    if remainder != 0 {
      var up := offset + (alignment - remainder);
      AlignedAbove(offset, alignment);
      if multiple < up {
        var q, p := up / alignment, multiple / alignment;
        assert up == alignment * q && multiple == alignment * p;
        assert alignment * (q - 1) < offset <= alignment * p < alignment * q;
        if p <= q - 1 {
          MulMonotonic(alignment, p, q - 1);
        } else {
          MulMonotonic(alignment, q, p);
        }
        assert false;
      }
    }
  }

  lemma MulMonotonic(a: nat, x: int, y: int)
    requires x <= y
    ensures a * x <= a * y
  {
  }
}
