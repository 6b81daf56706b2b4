/** The index iterator: an odometer that walks every index of an
    `n`-dimensional shape in row-major order (last coordinate fastest),
    updating a caller-owned index array in place. */
module Indexes {
  import opened Common

  /** The index array after `begin`: all zeros except the last coordinate,
      which is -1 so that the first step lands on the all-zero index. */
  function BeginState(n: nat): (r: seq<int>)
    requires n >= 1
    ensures |r| == n && r[n - 1] == -1
    ensures forall i :: 0 <= i < n - 1 ==> r[i] == 0
  {
    seq(n, i requires 0 <= i < n => if i == n - 1 then -1 else 0)
  }

  /** One step over the first `k` coordinates of `idx`: the last of them is
      incremented; a coordinate that reaches its extent becomes 0 and carries
      into the one before. The flag is false when the carry runs off the
      front, which is the end of the iteration. Coordinates from `k` on are
      never touched. */
  function Advance(idx: seq<int>, shape: seq<int>, k: nat): (r: (seq<int>, bool))
    requires k <= |idx| && k <= |shape|
    ensures |r.0| == |idx|
    ensures forall i :: k <= i < |idx| ==> r.0[i] == idx[i]
    decreases k
  {
    if k == 0 then (idx, false)
    else if idx[k - 1] + 1 < shape[k - 1] then (idx[k - 1 := idx[k - 1] + 1], true)
    else Advance(idx[k - 1 := 0], shape, k - 1)
  }

  /** The position of `idx` in row-major order over the first `k` axes. */
  function Rank(idx: seq<int>, shape: seq<int>, k: nat): int
    requires k <= |idx| && k <= |shape|
  {
    if k == 0 then 0 else Rank(idx, shape, k - 1) * shape[k - 1] + idx[k - 1]
  }

  ghost predicate InRange(idx: seq<int>, shape: seq<int>, k: nat)
    requires k <= |idx| && k <= |shape|
  {
    forall i :: 0 <= i < k ==> 0 <= idx[i] < shape[i]
  }

  ghost predicate Positive(shape: seq<int>) {
    forall i :: 0 <= i < |shape| ==> shape[i] >= 1
  }

  /** The guard of `begin` as written: every `n` in `[0, MaxDimensions]` is
      accepted, including 0, for which the store to coordinate `n - 1`
      falls before the array. */
  predicate BeginAcceptsAsWritten(n: int) {
    !(n < 0 || n > MaxDimensions)
  }

  /** The coordinate `begin` sets to -1 after zeroing the array: the last
      one, `n - 1`. */
  function BeginLast(n: int): int {
    n - 1
  }

  /** The guard the model uses: only lengths with a last coordinate. */
  predicate BeginAccepts(n: int) {
    1 <= n <= MaxDimensions
  }

  /** The guard of `step`: the shape and the index are present and `n` is a
      valid length. */
  predicate StepAccepts(n: int, shape: Option<seq<int>>, present: bool) {
    present && shape.Some? && 0 <= n <= MaxDimensions
  }

  // --------------------------------------------------------------- methods

  /** Resets `index` to the state before the first index. A missing array or
      an invalid length leaves everything alone. */
  method IterBegin(n: int, index: array?<int>)
    requires index != null && BeginAccepts(n) ==> index.Length >= n
    modifies index
    ensures index != null && !BeginAccepts(n) ==> index[..] == old(index[..])
    ensures index != null && BeginAccepts(n) ==>
      index[..n] == BeginState(n) && index[n..] == old(index[n..])
  {
    if index == null {
      return;
    }
    if n < 1 || n > MaxDimensions {
      return;
    }
    var i := 0;
    while i < n
      invariant 0 <= i <= n
      invariant forall j :: 0 <= j < i ==> index[j] == 0
      invariant index[n..] == old(index[n..])
    {
      index[i] := 0;
      i := i + 1;
    }
    index[BeginLast(n)] := -1;
  }

  /** Moves `index` to the next index of `shape` and says whether it is one;
      false, with nothing changed, when the shape or the array is missing or
      `n` is invalid. */
  method IterStep(n: int, shape: Option<seq<int>>, index: array?<int>) returns (valid: bool)
    requires StepAccepts(n, shape, index != null) ==> n <= index.Length && n <= |shape.value|
    modifies index
    ensures !StepAccepts(n, shape, index != null) ==> !valid
    ensures index != null && !StepAccepts(n, shape, true) ==> index[..] == old(index[..])
    ensures StepAccepts(n, shape, index != null) ==>
      (index[..], valid) == Advance(old(index[..]), shape.value, n)
  {
    if index == null || shape.None? {
      return false;
    }
    if n < 0 || n > MaxDimensions {
      return false;
    }
    var s := shape.value;
    var i := n - 1;
    while i >= 0
      invariant -1 <= i < n
      invariant Advance(index[..], s, i + 1) == Advance(old(index[..]), s, n)
    {
      ghost var before := index[..];
      index[i] := index[i] + 1;
      if index[i] < s[i] {
        assert index[..] == before[i := before[i] + 1];
        return true;
      }
      index[i] := 0;
      assert index[..] == before[i := 0];
      i := i - 1;
    }
    return false;
  }

  // ---------------------------------------------------------------- lemmas

  /** The rank depends on the first `k` coordinates only. */
  lemma {:induction false} RankPrefix(a: seq<int>, b: seq<int>, shape: seq<int>, k: nat)
    requires k <= |a| && k <= |b| && k <= |shape|
    requires forall i :: 0 <= i < k ==> a[i] == b[i]
    ensures Rank(a, shape, k) == Rank(b, shape, k)
  {
    if k > 0 {
      RankPrefix(a, b, shape, k - 1);
    }
  }

  /** An in-range index has a rank in `[0, Product)`. */
  lemma {:induction false} RankBounds(idx: seq<int>, shape: seq<int>, k: nat)
    requires k <= |idx| && k <= |shape| && InRange(idx, shape, k)
    ensures 0 <= Rank(idx, shape, k) < Product(shape, k)
  {
    if k > 0 {
      RankBounds(idx, shape, k - 1);
      var r, s := Rank(idx, shape, k - 1), shape[k - 1];
      // r * s + idx[k-1] <= (Product - 1) * s + s - 1
      assert 0 <= r * s <= (Product(shape, k - 1) - 1) * s by {
        MulLe(r, Product(shape, k - 1) - 1, s);
      }
      assert (Product(shape, k - 1) - 1) * s == Product(shape, k) - s;
    }
  }

  /** Two in-range indices with the same rank agree on the first `k`
      coordinates. */
  lemma {:induction false} RankInjective(a: seq<int>, b: seq<int>, shape: seq<int>, k: nat)
    requires k <= |a| && k <= |b| && k <= |shape|
    requires InRange(a, shape, k) && InRange(b, shape, k)
    requires Rank(a, shape, k) == Rank(b, shape, k)
    ensures forall i :: 0 <= i < k ==> a[i] == b[i]
  {
    if k > 0 {
      var s := shape[k - 1];
      var ra, rb := Rank(a, shape, k - 1), Rank(b, shape, k - 1);
      assert ra * s + a[k - 1] == rb * s + b[k - 1];
      if ra != rb {
        // the ranks of the prefixes differ by a multiple of s, the last
        // coordinates by less than s
        if ra > rb {
          MulLe(1, ra - rb, s);
        } else {
          MulLe(1, rb - ra, s);
        }
        assert false;
      }
      RankInjective(a, b, shape, k - 1);
    }
  }

  /** One step from an index that is in range on its first `k - 1` axes and
      at least -1 on axis `k - 1` (the state `begin` leaves, or any index the
      iteration produced): a valid step yields an in-range index whose rank is
      one more; the final step happens exactly when the rank is the last one,
      and leaves the first `k` coordinates at zero. */
  lemma {:induction false} AdvanceStep(idx: seq<int>, shape: seq<int>, k: nat)
    requires 1 <= k <= |idx| && k <= |shape| && Positive(shape)
    requires InRange(idx, shape, k - 1) && -1 <= idx[k - 1] < shape[k - 1]
    decreases k
    ensures Advance(idx, shape, k).1 ==>
      InRange(Advance(idx, shape, k).0, shape, k)
      && Rank(Advance(idx, shape, k).0, shape, k) == Rank(idx, shape, k) + 1
    ensures !Advance(idx, shape, k).1 ==>
      (forall i :: 0 <= i < k ==> Advance(idx, shape, k).0[i] == 0)
      && Rank(idx, shape, k) + 1 == Product(shape, k)
  {
    var s := shape[k - 1];
    if idx[k - 1] + 1 < s {
      var j := idx[k - 1 := idx[k - 1] + 1];
      RankPrefix(idx, j, shape, k - 1);
    } else {
      var z := idx[k - 1 := 0];
      RankPrefix(idx, z, shape, k - 1);
      var r := Rank(idx, shape, k - 1);
      assert idx[k - 1] == s - 1;
      assert Rank(idx, shape, k) + 1 == (r + 1) * s;
      var (j, ok) := Advance(z, shape, k - 1);
      assert j[k - 1] == 0;
      if k == 1 {
        assert r == 0;
      } else {
        AdvanceStep(z, shape, k - 1);
        RankPrefix(j, j, shape, k - 1);
        if ok {
          assert Rank(j, shape, k) == (r + 1) * s;
        } else {
          assert r + 1 == Product(shape, k - 1);
        }
      }
    }
  }

  /** The index after `t` steps from `begin`, and whether the `t`-th step was
      valid (true for `t == 0`). The walk stays put after the end. */
  function Walk(shape: seq<int>, n: nat, t: nat): (r: (seq<int>, bool))
    requires 1 <= n <= |shape|
    ensures |r.0| == n
  {
    if t == 0 then (BeginState(n), true)
    else
      var prev := Walk(shape, n, t - 1);
      if prev.1 then Advance(prev.0, shape, n) else prev
  }

  lemma BeginRank(shape: seq<int>, n: nat)
    requires 1 <= n <= |shape|
    ensures Rank(BeginState(n), shape, n) == -1
  {
    ZerosRank(BeginState(n), shape, n - 1);
  }

  lemma {:induction false} ZerosRank(idx: seq<int>, shape: seq<int>, k: nat)
    requires k <= |idx| && k <= |shape| && forall i :: 0 <= i < k ==> idx[i] == 0
    ensures Rank(idx, shape, k) == 0
  {
    if k > 0 {
      ZerosRank(idx, shape, k - 1);
    }
  }

  /** The `t`-th step from `begin`, for `1 <= t <= Product`, is valid and
      yields the in-range index of rank `t - 1`. */
  lemma {:induction false} WalkRank(shape: seq<int>, n: nat, t: nat)
    requires 1 <= n <= |shape| && Positive(shape)
    requires 1 <= t <= Product(shape, n)
    ensures Walk(shape, n, t).1
    ensures InRange(Walk(shape, n, t).0, shape, n)
    ensures Rank(Walk(shape, n, t).0, shape, n) == t - 1
  {
    if t == 1 {
      BeginRank(shape, n);
      AdvanceStep(BeginState(n), shape, n);
      if !Advance(BeginState(n), shape, n).1 {
        // the end would mean Product == 0
        ProductPositive(shape, n);
        assert false;
      }
    } else {
      WalkRank(shape, n, t - 1);
      var prev := Walk(shape, n, t - 1).0;
      AdvanceStep(prev, shape, n);
      if !Advance(prev, shape, n).1 {
        assert false;
      }
    }
  }

  /** The step after the last index is the end: it returns false and leaves
      the index all zeros. */
  lemma WalkEnds(shape: seq<int>, n: nat, t: nat)
    requires 1 <= n <= |shape| && Positive(shape)
    requires t == Product(shape, n) + 1
    ensures !Walk(shape, n, t).1
    ensures forall i :: 0 <= i < n ==> Walk(shape, n, t).0[i] == 0
  {
    ProductPositive(shape, n);
    WalkRank(shape, n, t - 1);
    var prev := Walk(shape, n, t - 1).0;
    assert Walk(shape, n, t) == Advance(prev, shape, n);
    AdvanceStep(prev, shape, n);
    if Advance(prev, shape, n).1 {
      // its rank would be Product, one past the last
      RankBounds(Advance(prev, shape, n).0, shape, n);
      assert false;
    }
  }

  /** Only the first `Product` steps of the walk are valid. */
  lemma {:induction false} WalkValidBound(shape: seq<int>, n: nat, t: nat)
    requires 1 <= n <= |shape| && Positive(shape)
    ensures Walk(shape, n, t).1 ==> t <= Product(shape, n)
  {
    if t > Product(shape, n) && Walk(shape, n, t).1 {
      ProductPositive(shape, n);
      if t == Product(shape, n) + 1 {
        WalkEnds(shape, n, t);
      } else {
        WalkValidBound(shape, n, t - 1);
      }
    }
  }

  /** Every in-range index is produced, by the step numbered one more than
      its rank, and no other valid step produces it: the walk enumerates each
      index of the shape exactly once. */
  lemma WalkVisitsOnce(shape: seq<int>, n: nat, idx: seq<int>, t: nat)
    requires 1 <= n <= |shape| && Positive(shape)
    requires |idx| == n && InRange(idx, shape, n)
    requires 1 <= t <= Product(shape, n)
    ensures Walk(shape, n, t).0 == idx <==> t == Rank(idx, shape, n) + 1
  {
    var r := Rank(idx, shape, n);
    RankBounds(idx, shape, n);
    WalkRank(shape, n, r + 1);
    RankInjective(Walk(shape, n, r + 1).0, idx, shape, n);
    WalkRank(shape, n, t);
  }

  /** `begin` as written accepts a length of 0, for which its final store is
      to coordinate -1; the guard the model uses rejects it, and every length
      it accepts has a last coordinate. */
  lemma BeginGuardZero()
    ensures BeginAcceptsAsWritten(0) && BeginLast(0) < 0
    ensures !BeginAccepts(0)
    ensures forall n :: BeginAccepts(n) ==> BeginAcceptsAsWritten(n) && 0 <= BeginLast(n) < n
  {
  }

  /** With an empty axis the iteration is not empty: for the shape `[2, 0]`
      the first step yields `[1, 0]`, which is not in range, and only the
      second step ends the walk. */
  lemma ZeroExtentYields()
    ensures Walk([2, 0], 2, 1) == ([1, 0], true)
    ensures !InRange([1, 0], [2, 0], 2)
    ensures !Walk([2, 0], 2, 2).1
  {
    assert BeginState(2) == [0, -1];
    assert [0, -1][1 := 0] == [0, 0];
    assert [0, 0][0 := 1] == [1, 0];
    assert Walk([2, 0], 2, 1) == ([1, 0], true);
    assert [1, 0][1 := 0] == [1, 0];
    assert [1, 0][0 := 0] == [0, 0];
  }

  // ---------------------------------------------------- arithmetic support
  // A fact about integer multiplication that the proofs above need spelled
  // out; it models nothing of the library.

  lemma MulLe(a: int, b: int, s: int)
    requires 0 <= a <= b && s >= 0
    ensures 0 <= a * s <= b * s
  {
  }
}
