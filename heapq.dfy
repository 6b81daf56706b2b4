/** The array-backed binary min-heap used as the search frontier. Each node is
    a 32-bit priority followed by a fixed-size payload; the payload bytes are
    abstracted to a sequence of `int`s (the search stores an index there). */
module Heapq {
  import opened Common

  const HeapDefaultCapacity: int := 256
  const HeapMaxNodeSize: int := 256
  /** The `priority_type` tag of a heap whose priorities are 32-bit signed ints. */
  const PriorityInt32: int := -4

  datatype Node = Node(priority: int, payload: seq<int>)

  function Parent(k: nat): nat
    requires k > 0
  {
    (k - 1) / 2
  }

  /** The node at `k` is no smaller than its parent. */
  ghost predicate OrderedAt(s: seq<Node>, k: nat)
    requires 0 < k < |s|
  {
    s[Parent(k)].priority <= s[k].priority
  }

  /** Every parent's priority is at most its children's. */
  ghost predicate HeapOrdered(s: seq<Node>) {
    forall k :: 0 < k < |s| ==> OrderedAt(s, k)
  }

  /** Heap order except possibly between `i` and its parent, with `i`'s
      children bounded by `i`'s parent: the state while sifting `i` up. */
  ghost predicate OrderedExceptUp(s: seq<Node>, i: nat) {
    && (forall k :: 0 < k < |s| && k != i ==> OrderedAt(s, k))
    && (forall k :: 0 < k < |s| && Parent(k) == i && 0 < i ==> s[Parent(i)].priority <= s[k].priority)
  }

  /** Heap order on every parent at or after `lo`, except between `i` and its
      children, with `i`'s children bounded by `i`'s parent when that parent
      is at or after `lo`: the state while sifting `i` down. */
  ghost predicate OrderedExceptDown(s: seq<Node>, lo: nat, i: nat) {
    && (forall k :: 0 < k < |s| && lo <= Parent(k) && Parent(k) != i ==> OrderedAt(s, k))
    && (forall k :: 0 < k < |s| && Parent(k) == i && 0 < i && lo <= Parent(i) ==> s[Parent(i)].priority <= s[k].priority)
  }

  ghost predicate OrderedFrom(s: seq<Node>, lo: int) {
    forall k :: 0 < k < |s| && lo <= Parent(k) ==> OrderedAt(s, k)
  }

  /** In a heap-ordered sequence the root has the least priority. */
  lemma {:induction false} RootIsMinimal(s: seq<Node>, k: nat)
    requires k < |s|
    ensures HeapOrdered(s) ==> s[0].priority <= s[k].priority
    decreases k
  {
    if k > 0 && HeapOrdered(s) {
      RootIsMinimal(s, Parent(k));
      assert OrderedAt(s, k);
    }
  }

  /** The root of a heap-ordered sequence has a priority no greater than that
      of any node it holds. */
  lemma RootIsMinimalInContents(s: seq<Node>)
    requires HeapOrdered(s) && |s| > 0
    ensures forall n :: n in multiset(s) ==> s[0].priority <= n.priority
  {
    forall n | n in multiset(s)
      ensures s[0].priority <= n.priority
    {
      var k :| 0 <= k < |s| && s[k] == n;
      RootIsMinimal(s, k);
    }
  }


  /** Swapping `i` with its least child `c` moves the defect down to `c`. */
  lemma SwapDownKeepsOrder(s: seq<Node>, lo: nat, i: nat, c: nat)
    requires OrderedExceptDown(s, lo, i) && lo <= i < c < |s| && Parent(c) == i
    requires s[c].priority < s[i].priority
    requires forall k :: 0 < k < |s| && Parent(k) == i ==> s[c].priority <= s[k].priority
    ensures OrderedExceptDown(s[i := s[c]][c := s[i]], lo, c)
  {
    var t := s[i := s[c]][c := s[i]];
    forall k | 0 < k < |t| && lo <= Parent(k) && Parent(k) != c
      ensures OrderedAt(t, k)
    {
      if Parent(k) == i {
      } else if k == i {
      }
    }
  }

  /** When `i` is no greater than its children the defect is gone. */
  lemma StopDownKeepsOrder(s: seq<Node>, lo: nat, i: nat)
    requires OrderedExceptDown(s, lo, i) && lo <= i
    requires forall k :: 0 < k < |s| && Parent(k) == i ==> s[i].priority <= s[k].priority
    ensures OrderedFrom(s, lo)
  {
  }

  /** Swapping `i` with its larger parent moves the defect up to the parent. */
  lemma SwapUpKeepsOrder(s: seq<Node>, i: nat)
    requires OrderedExceptUp(s, i) && 0 < i < |s|
    requires s[i].priority < s[Parent(i)].priority
    ensures OrderedExceptUp(s[i := s[Parent(i)]][Parent(i) := s[i]], Parent(i))
  {
    var p := Parent(i);
    var t := s[i := s[p]][p := s[i]];
    forall k | 0 < k < |t| && k != p
      ensures OrderedAt(t, k)
    {
      if k == i {
      } else if Parent(k) == i {
        assert OrderedAt(s, k) || s[Parent(i)].priority <= s[k].priority;
      } else if Parent(k) == p {
        assert OrderedAt(s, k);
      } else {
        assert OrderedAt(s, k);
      }
    }
    forall k | 0 < k < |t| && Parent(k) == p && 0 < p
      ensures t[Parent(p)].priority <= t[k].priority
    {
      assert OrderedAt(s, p);
      if k != i {
        assert OrderedAt(s, k);
      }
    }
  }


  /** Moving the last node of a heap to the root leaves a defect only at the root. */
  lemma LastToRootKeepsOrder(s: seq<Node>)
    requires HeapOrdered(s) && |s| > 1
    ensures OrderedExceptDown(s[..|s| - 1][0 := s[|s| - 1]], 0, 0)
  {
    var t := s[..|s| - 1][0 := s[|s| - 1]];
    forall k | 0 < k < |t| && 0 <= Parent(k) && Parent(k) != 0
      ensures OrderedAt(t, k)
    {
      assert OrderedAt(s, k);
    }
  }

  /** Moving the last node to the root loses exactly the old root. */
  lemma LastToRootContents(s: seq<Node>)
    requires |s| > 1
    ensures multiset(s[..|s| - 1][0 := s[|s| - 1]]) == multiset(s) - multiset{s[0]}
  {
    var n := |s| - 1;
    assert s == [s[0]] + s[1..n] + [s[n]];
    assert s[..n][0 := s[n]] == [s[n]] + s[1..n];
  }

  /** The whole first half of a pop, on the storage `a` of a heap of `n + 1`
      nodes: copying the last node over the root and dropping the last slot
      leaves a defect only at the root and loses exactly the old root. */
  lemma LastToRoot(a: seq<Node>, n: nat)
    requires n < |a| && HeapOrdered(a[..n + 1])
    ensures OrderedExceptDown(a[0 := a[n]][..n], 0, 0)
    ensures multiset(a[0 := a[n]][..n]) == multiset(a[..n + 1]) - multiset{a[0]}
  {
    var s := a[..n + 1];
    if n > 0 {
      assert a[0 := a[n]][..n] == s[..n][0 := s[n]];
      LastToRootKeepsOrder(s);
      LastToRootContents(s);
    } else {
      assert s == [a[0]];
    }
  }

  /** Appending a node to a heap leaves a defect only at the new node. */
  lemma AppendKeepsOrder(s: seq<Node>, x: Node)
    requires HeapOrdered(s)
    ensures OrderedExceptUp(s + [x], |s|)
  {
    var t := s + [x];
    forall k | 0 < k < |t| && k != |s|
      ensures OrderedAt(t, k)
    {
      assert OrderedAt(s, k);
    }
  }

  class MinHeap {
    var nodes: array<Node>
    var size: int
    var capacity: int
    var nodeSize: int
    var dataSize: int
    var dataOffset: int
    var priorityType: int

    ghost predicate Valid()
      reads this, nodes
    {
      && 0 <= size <= capacity
      && capacity == nodes.Length
    }

    /** The nodes held, without regard to their order. */
    ghost function Contents(): multiset<Node>
      reads this, nodes
      requires Valid()
    {
      multiset(nodes[..size])
    }

    ghost predicate IsMinHeap()
      reads this, nodes
      requires Valid()
    {
      HeapOrdered(nodes[..size])
    }

    /** A zero-initialised heap structure, as `= {0}` gives in C. */
    constructor ()
      ensures Valid() && fresh(nodes)
      ensures size == 0 && capacity == 0 && nodeSize == 0 && dataSize == 0
      ensures dataOffset == 0 && priorityType == 0
    {
      nodes := new Node[0];
      size, capacity := 0, 0;
      nodeSize, dataSize, dataOffset, priorityType := 0, 0, 0, 0;
    }

    /** Frees the storage and zeroes every size field. */
    method Uninit()
      modifies this
      ensures Valid() && fresh(nodes) && nodes.Length == 0
      ensures size == 0 && capacity == 0 && nodeSize == 0 && dataSize == 0 && dataOffset == 0
      ensures priorityType == old(priorityType)
    {
      nodes := new Node[0];
      size := 0;
      capacity := 0;
      nodeSize := 0;
      dataSize := 0;
      dataOffset := 0;
    }

    /** Sets up an empty heap whose payloads are `dataSize` bytes, or fails
        with -1 (`Error`) when a node would exceed the node-size cap. */
    method Init(dataSize': int) returns (status: Code)
      requires dataSize' >= 0
      modifies this
      ensures status == Ok || status == Error
      ensures status == Error <==> IntBytes + dataSize' > HeapMaxNodeSize
      ensures status == Error ==> unchanged(this)
      ensures status == Ok ==>
        && Valid() && IsMinHeap() && fresh(nodes)
        && size == 0 && capacity == 0 && Contents() == multiset{}
        && nodeSize == IntBytes + dataSize' && dataSize == dataSize'
        && dataOffset == IntBytes && priorityType == PriorityInt32
    {
      var nodeSize' := IntBytes + dataSize';
      if nodeSize' > HeapMaxNodeSize {
        return Error;
      }
      nodes := new Node[0];
      size := 0;
      capacity := 0;
      nodeSize := nodeSize';
      dataSize := dataSize';
      dataOffset := IntBytes;
      priorityType := PriorityInt32;
      status := Ok;
    }

    /** Removes every node and keeps the storage. */
    method Clear()
      requires Valid()
      modifies this
      ensures Valid() && IsMinHeap() && size == 0 && Contents() == multiset{}
      ensures nodes == old(nodes) && capacity == old(capacity)
      ensures dataSize == old(dataSize) && nodeSize == old(nodeSize) && dataOffset == old(dataOffset)
      ensures priorityType == old(priorityType)
    {
      size := 0;
    }

    /** True when the node at `lhs` has a strictly smaller priority than the
        node at `rhs`. */
    predicate Less(lhs: int, rhs: int): (b: bool)
      reads this, nodes
      requires Valid() && 0 <= lhs < size && 0 <= rhs < size
      ensures b <==> nodes[lhs].priority < nodes[rhs].priority
      ensures b ==> lhs != rhs
      ensures IsMinHeap() && rhs == 0 ==> !b
    {
      RootIsMinimal(nodes[..size], lhs);
      nodes[lhs].priority < nodes[rhs].priority
    }

    /** Exchanges two nodes and leaves every other one in place. */
    method Swap(lhs: int, rhs: int)
      requires Valid() && 0 <= lhs < size && 0 <= rhs < size
      modifies nodes
      ensures Valid() && Contents() == old(Contents())
      ensures nodes[..] == old(nodes[..])[lhs := old(nodes[rhs])][rhs := old(nodes[lhs])]
    {
      var buffer := nodes[lhs];
      nodes[lhs] := nodes[rhs];
      nodes[rhs] := buffer;
      assert nodes[..size] == old(nodes[..size])[lhs := old(nodes[rhs])][rhs := old(nodes[lhs])];
    }

    /** Overwrites the node at `index` with a new priority and payload. */
    method SetNode(index: int, priority: int, payload: seq<int>)
      requires 0 <= index < nodes.Length
      modifies nodes
      ensures nodes[..] == old(nodes[..])[index := Node(priority, payload)]
    {
      nodes[index] := Node(priority, payload);
    }

    /** Copies the node at `src` over the node at `dest`. */
    method CopyNode(dest: int, src: int)
      requires 0 <= dest < nodes.Length && 0 <= src < nodes.Length
      modifies nodes
      ensures nodes[..] == old(nodes[..])[dest := old(nodes[src])]
    {
      nodes[dest] := nodes[src];
    }

    /** Moves the node at `index` towards the root until its parent is no
        greater than it. */
    method SiftUp(index: int)
      requires Valid() && 0 <= index < size
      requires OrderedExceptUp(nodes[..size], index)
      modifies nodes
      ensures Valid() && IsMinHeap() && Contents() == old(Contents())
      decreases index
    {
      if index == 0 {
        return;
      }
      var parent := (index - 1) / 2;
      if Less(index, parent) {
        ghost var s := nodes[..size];
        Swap(index, parent);
        assert nodes[..size] == s[index := s[parent]][parent := s[index]];
        SwapUpKeepsOrder(s, index);
        SiftUp(parent);
      }
    }

    /** Moves the node at `index` away from the root, swapping it with its
        smaller child, until neither child is smaller than it. `lo` is the
        first parent position whose order the caller relies on. */
    method SiftDown(index: int, ghost lo: int)
      requires Valid() && 0 <= lo <= index
      requires OrderedExceptDown(nodes[..size], lo, index)
      modifies nodes
      ensures Valid() && OrderedFrom(nodes[..size], lo) && Contents() == old(Contents())
      decreases size - index
    {
      var candidate := index;
      var left := index * 2 + 1;
      var right := index * 2 + 2;
      if left < size && Less(left, candidate) {
        candidate := left;
      }
      if right < size && Less(right, candidate) {
        candidate := right;
      }
      ghost var s := nodes[..size];
      assert forall k :: 0 < k < size && Parent(k) == index ==> k == left || k == right;
      if candidate != index {
        Swap(index, candidate);
        assert nodes[..size] == s[index := s[candidate]][candidate := s[index]];
        SwapDownKeepsOrder(s, lo, index, candidate);
        SiftDown(candidate, lo);
      } else {
        StopDownKeepsOrder(s, lo, index);
      }
    }

    /** Rearranges arbitrary contents into a heap. */
    method Heapify()
      requires Valid()
      modifies nodes
      ensures Valid() && IsMinHeap() && Contents() == old(Contents())
    {
      var i := size / 2;
      while i >= 0
        invariant -1 <= i <= size / 2
        invariant Valid() && Contents() == old(Contents())
        invariant OrderedFrom(nodes[..size], i + 1)
      {
        SiftDown(i, i);
        i := i - 1;
      }
    }

    /** Removes a node of least priority and returns its payload; an empty
        heap is left as it is. */
    method Pop() returns (out: Option<seq<int>>)
      requires Valid() && IsMinHeap()
      modifies this, nodes
      ensures Valid() && IsMinHeap()
      ensures nodes == old(nodes) && capacity == old(capacity) && dataSize == old(dataSize)
      ensures nodeSize == old(nodeSize) && dataOffset == old(dataOffset) && priorityType == old(priorityType)
      ensures old(size) == 0 ==> out == None && size == 0
      ensures old(size) > 0 ==>
        && out == Some(old(nodes[0]).payload)
        && size == old(size) - 1
        && Contents() == old(Contents()) - multiset{old(nodes[0])}
        && forall n :: n in old(Contents()) ==> old(nodes[0]).priority <= n.priority
    {
      if size == 0 {
        return None;
      }
      RootIsMinimalInContents(nodes[..size]);
      out := Some(nodes[0].payload);
      MoveLastToRoot();
      SiftDown(0, 0);
    }

    /** The first half of a pop: the last node overwrites the root and the
        size shrinks by one. */
    method MoveLastToRoot()
      requires Valid() && IsMinHeap() && size > 0
      modifies this, nodes
      ensures Valid() && OrderedExceptDown(nodes[..size], 0, 0)
      ensures nodes == old(nodes) && capacity == old(capacity) && dataSize == old(dataSize)
      ensures nodeSize == old(nodeSize) && dataOffset == old(dataOffset) && priorityType == old(priorityType)
      ensures size == old(size) - 1
      ensures Contents() == old(Contents()) - multiset{old(nodes[0])}
    {
      ghost var a := nodes[..];
      var n := size - 1;
      CopyNode(0, n);
      size := n;
      LastToRoot(a, n);
    }

    /** Adds a node, growing the storage first when it is full; fails with
        `OutOfMemory`, leaving the heap as it was, when the reallocation does
        not succeed. */
    method Push(priority: Int32, payload: seq<int>, reallocSucceeds: bool) returns (status: Code)
      requires Valid() && IsMinHeap() && |payload| * IntBytes == dataSize
      modifies this, nodes
      ensures Valid() && IsMinHeap()
      ensures dataSize == old(dataSize) && nodeSize == old(nodeSize)
      ensures dataOffset == old(dataOffset) && priorityType == old(priorityType)
      ensures status == Ok || status == OutOfMemory
      ensures status == OutOfMemory <==> old(size) == old(capacity) && !reallocSucceeds
      ensures status == OutOfMemory ==>
        nodes == old(nodes) && size == old(size) && capacity == old(capacity) && Contents() == old(Contents())
      ensures status == Ok ==>
        size == old(size) + 1 && Contents() == old(Contents()) + multiset{Node(priority, payload)}
      ensures status == Ok ==>
        capacity == (if old(size) < old(capacity) then old(capacity)
                     else if old(capacity) == 0 then HeapDefaultCapacity
                     else old(capacity) * 2)
      ensures nodes != old(nodes) ==> fresh(nodes)
    {
      if size == capacity {
        var newCapacity := if capacity != 0 then capacity * 2 else HeapDefaultCapacity;
        if !reallocSucceeds {
          return OutOfMemory;
        }
        Grow(newCapacity);
      }
      Append(priority, payload);
      SiftUp(size - 1);
      status := Ok;
    }

    /** The reallocation of a push: the same nodes in a larger array. */
    method Grow(newCapacity: int)
      requires Valid() && IsMinHeap() && newCapacity >= capacity
      modifies this
      ensures Valid() && IsMinHeap() && fresh(nodes)
      ensures capacity == newCapacity && size == old(size) && Contents() == old(Contents())
      ensures dataSize == old(dataSize) && nodeSize == old(nodeSize)
      ensures dataOffset == old(dataOffset) && priorityType == old(priorityType)
    {
      ghost var s := nodes[..size];
      assert HeapOrdered(s);
      var grown := new Node[newCapacity];
      forall k | 0 <= k < size {
        grown[k] := nodes[k];
      }
      assert grown[..size] == s;
      capacity := newCapacity;
      nodes := grown;
      assert nodes[..size] == s;
    }

    /** The first half of a push: the node is written after the last one. */
    method Append(priority: Int32, payload: seq<int>)
      requires Valid() && IsMinHeap() && size < capacity && |payload| * IntBytes == dataSize
      modifies this, nodes
      ensures nodes == old(nodes) && capacity == old(capacity) && size == old(size) + 1
      ensures Valid() && OrderedExceptUp(nodes[..size], size - 1)
      ensures Contents() == old(Contents()) + multiset{Node(priority, payload)}
      ensures dataSize == old(dataSize) && nodeSize == old(nodeSize)
      ensures dataOffset == old(dataOffset) && priorityType == old(priorityType)
    {
      ghost var s := nodes[..size];
      size := size + 1;
      SetNode(size - 1, priority, payload);
      assert nodes[..size] == s + [Node(priority, payload)];
      AppendKeepsOrder(s, Node(priority, payload));
    }
  }
}
