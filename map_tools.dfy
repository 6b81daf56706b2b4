/** The map view: uniform get/set/bounds access to an N-dimensional integer
    grid stored through a user callback, a contiguous buffer or a strided
    buffer.

    A buffer is modelled as a sequence (or array) of cells indexed by BYTE
    offset from the buffer's start: the element whose first byte is at offset
    `off` lives in cell `off`. Each cell holds the raw element; reading it
    through the configured width keeps only the low bytes, as memory does. */
module Maps {
  import opened Common

  /** A NULL map pointer, a map of undefined type, or one of the three
      storage strategies. `intSize` is the element's byte size, negative for
      signed elements (-4 is `int32_t`, 1 is `uint8_t`). */
  datatype GridMap =
    | Absent
    | Undefined
    | Callback(dimensions: int, bounds: Option<seq<int>>, get: seq<int> -> Int32)
    | Contiguous(dimensions: int, shape: seq<int>, intSize: int)
    | Strided(dimensions: int, shape: seq<int>, intSize: int, strides: seq<int>)
  {
    predicate IsBuffer() { Contiguous? || Strided? }
  }

  // ---------------------------------------------------------------- widths

  predicate KnownWidth(w: int) {
    w == 1 || w == 2 || w == 4 || w == 8 || w == -1 || w == -2 || w == -4 || w == -8
  }

  /** The widths whose every element value is also a value of `int`. */
  predicate NarrowWidth(w: int) {
    w == 1 || w == 2 || w == -1 || w == -2 || w == -4
  }

  function Abs(x: int): nat {
    if x < 0 then -x else x
  }

  /** 2 to the number of bits of a `w`-wide element. */
  function Modulus(w: int): int
    requires KnownWidth(w)
  {
    var bytes := Abs(w);
    if bytes == 1 then 0x100
    else if bytes == 2 then 0x1_0000
    else if bytes == 4 then 0x1_0000_0000
    else 0x1_0000_0000_0000_0000
  }

  function MinOf(w: int): int
    requires KnownWidth(w)
  {
    if w < 0 then -(Modulus(w) / 2) else 0
  }

  /** The largest value of the width: `UINT8_MAX` ... `INT64_MAX`. */
  function MaxOf(w: int): int
    requires KnownWidth(w)
  {
    if w < 0 then Modulus(w) / 2 - 1 else Modulus(w) - 1
  }

  /** The C conversion of `v` to a `w`-wide integer: reduction modulo
      2^(8|w|) into the width's range (two's complement for signed types). */
  function Truncate(v: int, w: int): (r: int)
    requires KnownWidth(w)
    ensures MinOf(w) <= r <= MaxOf(w)
  {
    var u := v % Modulus(w);
    if u > MaxOf(w) then u - Modulus(w) else u
  }

  /** The conversion differs from `v` by a multiple of 2^(8|w|). */
  lemma TruncateCongruence(v: int, w: int)
    requires KnownWidth(w)
    ensures (v - Truncate(v, w)) % Modulus(w) == 0
  {
    var m := Modulus(w);
    var u := v % m;
    ModuloShift(0, v / m, m);
    ModuloShift(0, v / m + 1, m);
    assert v - u == (v / m) * m;
    assert v - (u - m) == (v / m + 1) * m;
  }

  /** The `int` that a read returns for a cell holding `raw`: the element is
      the low bytes of `raw` at the width, then converted to a 32-bit `int`.
      An unknown width reads as 0. */
  function Decode(w: int, raw: int): Int32 {
    if KnownWidth(w) then Truncate(Truncate(raw, w), -4) else 0
  }

  /** The smallest value `Decode` can return at a width. */
  function Lowest(w: int): int {
    if w == 1 || w == 2 || w == -1 || w == -2 then MinOf(w) else IntMin
  }

  lemma TruncateCongruent(a: int, b: int, w: int)
    requires KnownWidth(w) && (a - b) % Modulus(w) == 0
    ensures Truncate(a, w) == Truncate(b, w)
  {
    var m := Modulus(w);
    var q := (a - b) / m;
    assert a == b + q * m;
    ModuloShift(b, q, m);
  }

  /** A value in the width's range survives the conversion unchanged. */
  lemma TruncateFits(v: int, w: int)
    requires KnownWidth(w) && MinOf(w) <= v <= MaxOf(w)
    ensures Truncate(v, w) == v
  {
    var m := Modulus(w);
    if v < 0 {
      ModuloShift(v, 1, m);
      ModuloSmall(v + m, m);
    } else {
      ModuloSmall(v, m);
    }
  }

  /** Converting to a width of at least 32 bits and then to `int` is the
      conversion to `int` alone. */
  lemma TruncateWideThenInt(v: int, w: int)
    requires KnownWidth(w) && Abs(w) >= 4
    ensures Truncate(Truncate(v, w), -4) == Truncate(v, -4)
  {
    var t := Truncate(v, w);
    TruncateCongruence(v, w);
    var k := (v - t) / Modulus(w);
    assert v - t == k * Modulus(w);
    assert v - t == (k * (Modulus(w) / 0x1_0000_0000)) * 0x1_0000_0000;
    ModuloShift(0, k * (Modulus(w) / 0x1_0000_0000), 0x1_0000_0000);
    TruncateCongruent(t, v, -4);
  }

  /** What a read returns after a write of `v`: `v` itself whenever `v` is in
      the width's range, and for every `int` when the width has 32 bits or
      more. */
  lemma DecodeStored(w: int, v: Int32)
    requires KnownWidth(w)
    requires (MinOf(w) <= v <= MaxOf(w)) || Abs(w) >= 4
    ensures Decode(w, Truncate(v, w)) == v
  {
    if MinOf(w) <= v <= MaxOf(w) {
      TruncateFits(v, w);
    } else {
      TruncateWideThenInt(v, w);
    }
    TruncateFits(v, -4);
  }

  /** Reads of a narrow width stay in the width's range; every read is at
      least `Lowest`. */
  lemma DecodeRange(w: int, raw: int)
    ensures Lowest(w) <= Decode(w, raw)
    ensures NarrowWidth(w) ==> MinOf(w) <= Decode(w, raw) <= MaxOf(w)
  {
    if KnownWidth(w) && NarrowWidth(w) {
      TruncateFits(Truncate(raw, w), -4);
    }
  }

  /** A value strictly between `Lowest` and some read value is stored and
      read back exactly. */
  lemma DecodeStoredBelow(w: int, raw: int, v: Int32)
    requires KnownWidth(w) && Lowest(w) <= v < Decode(w, raw)
    ensures Decode(w, Truncate(v, w)) == v
  {
    DecodeRange(w, raw);
    DecodeStored(w, v);
  }

  // ------------------------------------------------------------ structure

  function Dimensions(m: GridMap): (r: int)
    ensures m.Absent? || m.Undefined? ==> r == 0
  {
    match m
    case Absent => 0
    case Undefined => 0
    case Callback(d, _, _) => d
    case Contiguous(d, _, _) => d
    case Strided(d, _, _, _) => d
  }

  /** The bounds of each axis, or `None` when the map is unbounded. */
  function Shape(m: GridMap): (r: Option<seq<int>>)
    ensures m.IsBuffer() ==> r == Some(m.shape)
  {
    match m
    case Absent => None
    case Undefined => None
    case Callback(_, b, _) => b
    case Contiguous(_, s, _) => Some(s)
    case Strided(_, s, _, _) => Some(s)
  }

  /** The arrays a map points to are at least `dimensions` long. */
  predicate WellFormed(m: GridMap) {
    match m
    case Absent => true
    case Undefined => true
    case Callback(d, b, _) => d >= 0 && (b.Some? ==> |b.value| >= d)
    case Contiguous(d, s, _) => d >= 0 && |s| >= d
    case Strided(d, s, _, st) => d >= 0 && |s| >= d && |st| >= d
  }

  /** `0 <= ij[i] < shape[i]` on every axis; always true without a shape and
      never true for a NULL map. */
  predicate InBounds(m: GridMap, ij: seq<int>): (b: bool)
    requires WellFormed(m) && |ij| >= Dimensions(m)
    ensures m.Absent? ==> !b
    ensures !m.Absent? && Shape(m).None? ==> b
    ensures Shape(m).Some? && (exists i :: 0 <= i < Dimensions(m) && (ij[i] < 0 || ij[i] >= Shape(m).value[i])) ==> !b
    ensures !m.Absent? && Shape(m).Some? && (forall i :: 0 <= i < Dimensions(m) ==> 0 <= ij[i] < Shape(m).value[i]) ==> b
  {
    !m.Absent? &&
    match Shape(m)
    case None => true
    case Some(bounds) => forall i :: 0 <= i < Dimensions(m) ==> 0 <= ij[i] < bounds[i]
  }

  /** The position of `ij` among the cells when the FIRST coordinate varies
      fastest: the sum of `ij[i]` times the product of the extents before
      axis `i`. */
  function Linear(ij: seq<int>, shape: seq<int>, k: nat): int
    requires k <= |ij| && k <= |shape|
  {
    if k == 0 then 0 else Linear(ij, shape, k - 1) + Product(shape, k - 1) * ij[k - 1]
  }

  /** The sum of `ij[i] * strides[i]` over the first `k` axes. */
  function Dot(strides: seq<int>, ij: seq<int>, k: nat): int
    requires k <= |ij| && k <= |strides|
  {
    if k == 0 then 0 else Dot(strides, ij, k - 1) + strides[k - 1] * ij[k - 1]
  }

  ghost predicate InRange(ij: seq<int>, shape: seq<int>, k: nat)
    requires k <= |ij| && k <= |shape|
  {
    forall i :: 0 <= i < k ==> 0 <= ij[i] < shape[i]
  }

  /** The byte offset of `ij` in a buffer map, whether or not it is in bounds:
      the contiguous layout has stride `|intSize|` on axis 0 and multiplies
      it by each extent in turn, so axis 0 varies fastest. */
  function Offset(m: GridMap, ij: seq<int>): int
    requires m.IsBuffer() && WellFormed(m) && |ij| >= Dimensions(m)
  {
    match m
    case Contiguous(d, s, w) => Abs(w) * Linear(ij, s, d)
    case Strided(d, _, _, st) => Dot(st, ij, d)
  }

  /** The byte offset of an in-bounds element of a buffer map, or `None`
      (a NULL address) for an index out of bounds or a map without a buffer. */
  function Address(m: GridMap, ij: seq<int>): (r: Option<int>)
    requires WellFormed(m) && |ij| >= Dimensions(m)
    ensures r.Some? <==> m.IsBuffer() && InBounds(m, ij)
  {
    if m.IsBuffer() && InBounds(m, ij) then Some(Offset(m, ij)) else None
  }

  /** Every in-bounds element of a buffer map with a known width lies inside
      a buffer of `len` cells. */
  ghost predicate Valid(m: GridMap, len: int) {
    && WellFormed(m)
    && (m.IsBuffer() && KnownWidth(m.intSize) ==>
          forall ij: seq<int> | |ij| >= m.dimensions && InBounds(m, ij) :: 0 <= Offset(m, ij) < len)
  }

  /** No two in-bounds indices of a buffer map share an element. */
  ghost predicate Injective(m: GridMap)
    requires WellFormed(m)
  {
    m.IsBuffer() ==>
      forall a: seq<int>, b: seq<int> {:trigger Offset(m, a), Offset(m, b)} |
        |a| == |b| == m.dimensions && InBounds(m, a) && InBounds(m, b) && Offset(m, a) == Offset(m, b) :: a == b
  }

  // ------------------------------------------------------ get / is_max / set

  /** The value stored at `ij`: the callback's answer, or the decoded buffer
      element; 0 out of bounds, for an unknown width, and for a NULL or
      undefined map. */
  function Get(m: GridMap, mem: seq<int>, ij: seq<int>): (r: Int32)
    requires Valid(m, |mem|) && |ij| >= Dimensions(m)
    ensures m.Absent? || m.Undefined? ==> r == 0
    ensures m.IsBuffer() && (!InBounds(m, ij) || !KnownWidth(m.intSize)) ==> r == 0
    ensures m.IsBuffer() && NarrowWidth(m.intSize) ==> MinOf(m.intSize) <= r <= MaxOf(m.intSize)
  {
    match m
    case Absent => 0
    case Undefined => 0
    case Callback(_, _, get) => get(ij)
    case _ =>
      if !KnownWidth(m.intSize) then 0
      else match Address(m, ij)
        case None => 0
        case Some(off) => DecodeRange(m.intSize, mem[off]); Decode(m.intSize, mem[off])
  }

  /** True when the element at `ij` holds the largest value of its width
      (`INT_MAX` for a callback map, which is asked regardless of bounds);
      false out of bounds and for an unknown width. */
  predicate IsMax(m: GridMap, mem: seq<int>, ij: seq<int>): (b: bool)
    requires Valid(m, |mem|) && |ij| >= Dimensions(m)
    ensures m.Absent? || m.Undefined? ==> !b
    ensures m.Callback? ==> (b <==> m.get(ij) == IntMax)
    ensures m.IsBuffer() && b ==> KnownWidth(m.intSize) && InBounds(m, ij)
  {
    match m
    case Absent => false
    case Undefined => false
    case Callback(_, _, get) => get(ij) == IntMax
    case _ =>
      && KnownWidth(m.intSize)
      && Address(m, ij).Some?
      && Truncate(mem[Address(m, ij).value], m.intSize) == MaxOf(m.intSize)
  }

  /** The buffer after writing `v` at `ij`: the addressed cell receives `v`
      converted to the width; nothing changes out of bounds, for an unknown
      width, or for a map without a buffer. */
  function Store(m: GridMap, mem: seq<int>, ij: seq<int>, v: Int32): (r: seq<int>)
    requires Valid(m, |mem|) && |ij| >= Dimensions(m)
    ensures |r| == |mem|
  {
    if m.IsBuffer() && KnownWidth(m.intSize) && Address(m, ij).Some?
    then mem[Address(m, ij).value := Truncate(v, m.intSize)]
    else mem
  }

  /** Computes the address of `ij` by walking the axes. */
  method At(m: GridMap, ij: seq<int>) returns (r: Option<int>)
    requires WellFormed(m) && |ij| >= Dimensions(m)
    ensures r == Address(m, ij)
  {
    if !InBounds(m, ij) {
      return None;
    }
    match m {
      case Contiguous(d, s, w) =>
        var at := ContiguousOffset(d, s, w, ij);
        r := Some(at);
      case Strided(d, _, _, st) =>
        var at := StridedOffset(d, st, ij);
        r := Some(at);
      case _ =>
        r := None;
    }
  }

  /** Accumulates the offset of `ij` together with the running stride, which
      starts at the element size and grows by each extent. */
  method ContiguousOffset(d: int, s: seq<int>, w: int, ij: seq<int>) returns (at: int)
    requires 0 <= d <= |s| && d <= |ij|
    ensures at == Abs(w) * Linear(ij, s, d)
  {
    at := 0;
    var stride := Abs(w);
    var i := 0;
    while i < d
      invariant 0 <= i <= d
      invariant stride == Abs(w) * Product(s, i)
      invariant at == Abs(w) * Linear(ij, s, i)
    {
      at := at + stride * ij[i];
      stride := stride * s[i];
      i := i + 1;
    }
  }

  /** Accumulates `ij[i] * strides[i]` over the axes. */
  method StridedOffset(d: int, st: seq<int>, ij: seq<int>) returns (at: int)
    requires 0 <= d <= |st| && d <= |ij|
    ensures at == Dot(st, ij, d)
  {
    at := 0;
    var i := 0;
    while i < d
      invariant 0 <= i <= d
      invariant at == Dot(st, ij, i)
    {
      at := at + st[i] * ij[i];
      i := i + 1;
    }
  }

  /** Writes `value` at `ij` in the map's buffer. A callback map's storage
      is outside the model, so its buffer argument is left alone. */
  method Set(m: GridMap, data: array<int>, ij: seq<int>, value: Int32)
    requires Valid(m, data.Length) && |ij| >= Dimensions(m)
    modifies data
    ensures data[..] == Store(m, old(data[..]), ij, value)
  {
    if !m.IsBuffer() {
      return;
    }
    var at := At(m, ij);
    if at.None? {
      return;
    }
    if KnownWidth(m.intSize) {
      data[at.value] := Truncate(value, m.intSize);
    }
  }

  // --------------------------------------------------------------- lemmas

  /** An in-range index has a position in `[0, Product)`. */
  lemma {:induction false} LinearBounds(ij: seq<int>, shape: seq<int>, k: nat)
    requires k <= |ij| && k <= |shape| && InRange(ij, shape, k)
    ensures 0 <= Linear(ij, shape, k) < Product(shape, k)
  {
    if k > 0 {
      LinearBounds(ij, shape, k - 1);
      var p := Product(shape, k - 1);
      var l := Linear(ij, shape, k - 1);
      var x := ij[k - 1];
      assert 0 <= p * x <= p * (shape[k - 1] - 1) by {
        MulMonotone(p, x, shape[k - 1] - 1);
      }
      assert p * (shape[k - 1] - 1) == p * shape[k - 1] - p;
    }
  }

  /** Two in-range indices with the same position agree on the first `k`
      coordinates. */
  lemma {:induction false} LinearInjective(a: seq<int>, b: seq<int>, shape: seq<int>, k: nat)
    requires k <= |a| && k <= |b| && k <= |shape|
    requires InRange(a, shape, k) && InRange(b, shape, k)
    requires Linear(a, shape, k) == Linear(b, shape, k)
    ensures forall i :: 0 <= i < k ==> a[i] == b[i]
  {
    if k > 0 {
      var p := Product(shape, k - 1);
      LinearBounds(a, shape, k - 1);
      LinearBounds(b, shape, k - 1);
      var la, lb := Linear(a, shape, k - 1), Linear(b, shape, k - 1);
      assert la + p * a[k - 1] == lb + p * b[k - 1];
      if a[k - 1] != b[k - 1] {
        ProductPositive(shape, k - 1);
        MulApart(p, a[k - 1], b[k - 1]);
        assert false;
      }
      LinearInjective(a, b, shape, k - 1);
    }
  }

  /** Contiguous offsets of in-bounds indices are distinct multiples of the
      element size below `|intSize|` times the number of cells. */
  lemma ContiguousOffsets(m: GridMap, a: seq<int>, b: seq<int>)
    requires m.Contiguous? && WellFormed(m) && |a| >= m.dimensions && |b| >= m.dimensions
    requires InBounds(m, a) && InBounds(m, b) && Abs(m.intSize) > 0
    ensures 0 <= Offset(m, a) < Abs(m.intSize) * Product(m.shape, m.dimensions)
    ensures Offset(m, a) % Abs(m.intSize) == 0
    ensures Offset(m, a) == Offset(m, b) ==> a[..m.dimensions] == b[..m.dimensions]
  {
    var d, w := m.dimensions, Abs(m.intSize);
    LinearBounds(a, m.shape, d);
    var la := Linear(a, m.shape, d);
    assert Offset(m, a) == w * la;
    MulBelow(w, la, Product(m.shape, d));
    MulMultiple(w, la);
    if Offset(m, a) == Offset(m, b) {
      var lb := Linear(b, m.shape, d);
      MulCancel(w, la, lb);
      LinearInjective(a, b, m.shape, d);
    }
  }

  /** A contiguous map is valid for any buffer holding all its cells. */
  lemma ContiguousValid(m: GridMap, len: int)
    requires m.Contiguous? && WellFormed(m) && KnownWidth(m.intSize)
    requires len >= Abs(m.intSize) * Product(m.shape, m.dimensions)
    ensures Valid(m, len)
  {
    forall ij: seq<int> | |ij| >= m.dimensions && InBounds(m, ij)
      ensures 0 <= Offset(m, ij) < len
    {
      ContiguousOffsets(m, ij, ij);
    }
  }

  /** A contiguous map never lets two in-bounds indices share an element. */
  lemma ContiguousInjective(m: GridMap)
    requires m.Contiguous? && WellFormed(m) && KnownWidth(m.intSize)
    ensures Injective(m)
  {
    forall a: seq<int>, b: seq<int> |
      |a| == |b| == m.dimensions && InBounds(m, a) && InBounds(m, b) && Offset(m, a) == Offset(m, b)
      ensures a == b
    {
      ContiguousOffsets(m, a, b);
      assert a == a[..m.dimensions] && b == b[..m.dimensions];
    }
  }

  /** A set then a get at the same in-bounds index returns the value written
      whenever it fits the width (always, for widths of 32 bits or more). */
  lemma SetThenGet(m: GridMap, mem: seq<int>, ij: seq<int>, v: Int32)
    requires Valid(m, |mem|) && |ij| >= Dimensions(m) && m.IsBuffer()
    requires InBounds(m, ij) && KnownWidth(m.intSize)
    requires (MinOf(m.intSize) <= v <= MaxOf(m.intSize)) || Abs(m.intSize) >= 4
    ensures Get(m, Store(m, mem, ij, v), ij) == v
  {
    DecodeStored(m.intSize, v);
  }

  /** A set changes no element other than the one it addresses: every index
      at a different offset reads as before. */
  lemma SetKeepsOthers(m: GridMap, mem: seq<int>, ij: seq<int>, other: seq<int>, v: Int32)
    requires Valid(m, |mem|) && |ij| >= Dimensions(m) && |other| >= Dimensions(m) && m.IsBuffer()
    requires !InBounds(m, other) || !InBounds(m, ij) || Offset(m, other) != Offset(m, ij)
    ensures Get(m, Store(m, mem, ij, v), other) == Get(m, mem, other)
    ensures IsMax(m, Store(m, mem, ij, v), other) == IsMax(m, mem, other)
  {
  }

  /** In a contiguous map a set leaves every other in-bounds index's value. */
  lemma ContiguousSetKeepsOthers(m: GridMap, mem: seq<int>, ij: seq<int>, other: seq<int>, v: Int32)
    requires Valid(m, |mem|) && m.Contiguous? && |ij| == |other| == m.dimensions && ij != other
    ensures Get(m, Store(m, mem, ij, v), other) == Get(m, mem, other)
  {
    if KnownWidth(m.intSize) {
      if InBounds(m, ij) && InBounds(m, other) {
        ContiguousOffsets(m, ij, other);
        assert ij == ij[..m.dimensions] && other == other[..m.dimensions];
      }
      SetKeepsOthers(m, mem, ij, other, v);
    }
  }

  /** The sentinel test on a raw element against its decoded value: at a
      narrow width the element is the width's maximum exactly when it
      decodes to it, and at 32 or 64 unsigned bits the maximum decodes to -1. */
  lemma DecodeMax(w: int, raw: int)
    requires KnownWidth(w)
    ensures NarrowWidth(w) ==> (Truncate(raw, w) == MaxOf(w) <==> Decode(w, raw) == MaxOf(w))
    ensures (w == 4 || w == 8) && Truncate(raw, w) == MaxOf(w) ==> Decode(w, raw) == -1
  {
    if NarrowWidth(w) {
      TruncateFits(Truncate(raw, w), -4);
    }
    if (w == 4 || w == 8) && Truncate(raw, w) == MaxOf(w) {
      TruncateCongruent(MaxOf(w), -1, -4);
      TruncateFits(-1, -4);
    }
  }

  /** A sentinel cell of a narrow width reads as the width's maximum, and
      only such a cell does; in an in-bounds cell of a 32- or 64-bit unsigned
      map the sentinel reads as -1. */
  lemma IsMaxReads(m: GridMap, mem: seq<int>, ij: seq<int>)
    requires Valid(m, |mem|) && |ij| >= Dimensions(m) && m.IsBuffer()
    ensures NarrowWidth(m.intSize) ==>
      (IsMax(m, mem, ij) <==> InBounds(m, ij) && Get(m, mem, ij) == MaxOf(m.intSize))
    ensures (m.intSize == 4 || m.intSize == 8) && IsMax(m, mem, ij) ==> Get(m, mem, ij) == -1
  {
    var w := m.intSize;
    if InBounds(m, ij) && KnownWidth(w) {
      var raw := mem[Offset(m, ij)];
      assert Get(m, mem, ij) == Decode(w, raw);
      assert IsMax(m, mem, ij) <==> Truncate(raw, w) == MaxOf(w);
      DecodeMax(w, raw);
    }
  }

  // ---------------------------------------------------- arithmetic support
  // Facts about integer multiplication and remainder that the proofs above
  // need spelled out; they model nothing of the library.

  lemma ModuloShift(b: int, q: int, m: int)
    requires m > 0
    ensures (b + q * m) % m == b % m
  {
    var x := b + q * m;
    var k := x / m - b / m - q;
    assert x == (x / m) * m + x % m;
    assert b == (b / m) * m + b % m;
    assert k * m == (x / m) * m - (b / m) * m - q * m;
    assert k * m == b % m - x % m;
    if k > 0 {
      MulMonotone(m, 1, k);
    } else if k < 0 {
      MulMonotone(m, 1, -k);
      assert (-k) * m == -(k * m);
    }
  }

  lemma ModuloSmall(x: int, m: int)
    requires 0 <= x < m
    ensures x % m == x
  {
    ModuloShift(x, 0, m);
    var k := x / m;
    assert x == k * m + x % m;
    if k > 0 {
      MulMonotone(m, 1, k);
    }
  }

  lemma MulMonotone(p: int, x: int, y: int)
    requires p >= 0 && 0 <= x <= y
    ensures 0 <= p * x <= p * y
  {
  }

  lemma MulBelow(p: int, x: int, y: int)
    requires p >= 0 && 0 <= x < y
    ensures 0 <= p * x < p * y || p == 0
  {
    MulMonotone(p, x, y - 1);
    assert p * (y - 1) == p * y - p;
  }

  lemma MulMultiple(p: int, x: int)
    requires p > 0
    ensures (p * x) % p == 0
  {
    ModuloShift(0, x, p);
    assert x * p == p * x;
  }

  lemma MulCancel(p: int, x: int, y: int)
    requires p > 0 && p * x == p * y
    ensures x == y
  {
    if x != y {
      MulApart(p, x, y);
    }
  }

  lemma MulApart(p: int, x: int, y: int)
    requires p > 0 && x != y
    ensures p * x - p * y >= p || p * y - p * x >= p
  {
    if x > y {
      MulMonotone(p, 1, x - y);
      assert p * (x - y) == p * x - p * y;
    } else {
      MulMonotone(p, 1, y - x);
      assert p * (y - x) == p * y - p * x;
    }
  }
}
