/** Definitions shared by every part of the library: C's 32-bit `int`, an
    optional value, the symbolic error codes and the dimension limit. */
module Common {

  /** A value of C's 32-bit signed `int`. */
  type Int32 = x: int | -0x8000_0000 <= x < 0x8000_0000

  const IntMin: Int32 := -0x8000_0000
  const IntMax: Int32 := 0x7fff_ffff

  /** `sizeof(int)`. */
  const IntBytes: int := 4

  /** The compile-time limit on the number of dimensions. Its value is set in a
      configuration header that is not part of this model; the model only
      relies on it being at least 2 (the grid graph needs two axes) and small
      enough that a heap node holding a whole index fits the node-size cap. */
  type DimLimit = x: int | 2 <= x <= 63 witness 2
  const MaxDimensions: DimLimit

  datatype Option<+T> = None | Some(value: T)

  /** Result codes. The library's error enumeration is not part of this model,
      so the codes are symbolic: `Ok` is 0, `Done` is the positive 1 that the
      search step returns on an empty frontier, the others are negative. */
  datatype Code = Ok | Done | Error | InvalidArgument | OutOfMemory
  {
    predicate IsError() { this == Error || this == InvalidArgument || this == OutOfMemory }
  }

  /** The product of the first `k` extents of a shape: the number of cells
      they span. */
  function Product(shape: seq<int>, k: nat): int
    requires k <= |shape|
  {
    if k == 0 then 1 else Product(shape, k - 1) * shape[k - 1]
  }

  lemma {:induction false} ProductPositive(shape: seq<int>, k: nat)
    requires k <= |shape| && forall i :: 0 <= i < k ==> shape[i] > 0
    ensures Product(shape, k) > 0
  {
    if k > 0 {
      ProductPositive(shape, k - 1);
    }
  }
}
