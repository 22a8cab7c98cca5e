// What every component shares: fixed-width integers, byte strings, and a few facts of arithmetic, sets
// and sequences.
module Machine {
  const TWO16: int := 0x1_0000
  const TWO32: int := 0x1_0000_0000
  const TWO63: int := 0x8000_0000_0000_0000
  const TWO64: int := 0x1_0000_0000_0000_0000

  type Byte = b: int | 0 <= b < 0x100
  type Word32 = w: int | 0 <= w < 0x1_0000_0000
  type Word64 = w: int | 0 <= w < 0x1_0000_0000_0000_0000
  type Int64 = n: int | -0x8000_0000_0000_0000 <= n < 0x8000_0000_0000_0000

  type Text = seq<Byte>

  datatype Option<+T> = None | Some(value: T)

  // Unsigned arithmetic that wraps, as uint32_t and uint64_t do.
  function U32(x: int): (w: Word32)
  {
    x % TWO32
  }

  function U64(x: int): (w: Word64)
  {
    x % TWO64
  }

  // The conversion int64_t(w) of an unsigned 64-bit value.
  function S64(w: Word64): (n: Int64)
  {
    if w < TWO63 then w else w - TWO64
  }

  function Min(a: int, b: int): int
  {
    if a <= b then a else b
  }

  function Max(a: int, b: int): int
  {
    if a >= b then a else b
  }

  // ---------------------------------------------------------------------------------------------
  // Products, sets and sequences.

  lemma Scaled(a: int, b: int, w: int)
    requires a <= b && 0 <= w
    ensures a * w <= b * w
  {
  }

  lemma SubsetIsSmaller<T>(a: set<T>, b: set<T>)
    requires a <= b
    ensures |a| <= |b|
  {
    assert |b| == |a| + |b - a|;
  }

  // What is there already, in front of what is read next.
  function Behind<T>(front: seq<T>, rest: Option<seq<T>>): Option<seq<T>>
  {
    match rest
    case Some(more) => Some(front + more)
    case None => None
  }
}
