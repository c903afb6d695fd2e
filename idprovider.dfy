/**
 * `GameEngine.Containers.IDProvider`: integer handles kept in an implicit binary heap of two-bit flags.
 * Node `i` has children `2i + 1` and `2i + 2`; `Used` marks an allocated id, and `ChildrenUsed` marks
 * that both children (where they exist) are fully allocated subtrees.
 */
module IdProviders {
  import opened Outcomes
  import Lists

  /** The `NodeStatus` byte enum; only its two low bits are ever set. */
  type Flags = bv2

  const Free: Flags := 0
  const Used: Flags := 1
  const ChildrenUsed: Flags := 2
  const AllUsed: Flags := 3

  predicate HasFlag(status: Flags, flag: Flags)
  {
    status & flag == flag
  }

  function Left(i: int): int { 2 * i + 1 }

  function Right(i: int): int { 2 * i + 2 }

  /** The parent of a node `i > 0`; both operands are non-negative, so C# and Dafny division agree. */
  function Parent(i: int): int { (i - 1) / 2 }

  /** A child position is full when it lies outside the list or its node is `AllUsed`. */
  predicate ChildFull(nodes: seq<Flags>, c: int)
  {
    !(0 <= c < |nodes|) || nodes[c] == AllUsed
  }

  /** The flag invariant at one node: `ChildrenUsed` exactly when both child positions are full. */
  predicate Consistent(nodes: seq<Flags>, i: int)
    requires 0 <= i < |nodes|
  {
    HasFlag(nodes[i], ChildrenUsed) <==> ChildFull(nodes, Left(i)) && ChildFull(nodes, Right(i))
  }

  predicate Wellformed(nodes: seq<Flags>)
  {
    forall i :: 0 <= i < |nodes| ==> Consistent(nodes, i)
  }

  function UsedBit(status: Flags): nat
  {
    if HasFlag(status, Used) then 1 else 0
  }

  /** The number of allocated ids. */
  function CountUsed(nodes: seq<Flags>): (r: nat)
    ensures r <= |nodes|
  {
    if |nodes| == 0 then 0 else CountUsed(nodes[..|nodes| - 1]) + UsedBit(nodes[|nodes| - 1])
  }

  // ---- Facts about the flag tree ----

  /** Replacing one node changes the count by the difference of the two `Used` bits. */
  lemma {:induction false} CountUsedUpdate(nodes: seq<Flags>, k: int, v: Flags)
    requires 0 <= k < |nodes|
    ensures CountUsed(nodes[k := v]) == CountUsed(nodes) - UsedBit(nodes[k]) + UsedBit(v)
    decreases |nodes|
  {
    var n := |nodes|;
    var updated := nodes[k := v];
    if k == n - 1 {
      assert updated[..n - 1] == nodes[..n - 1];
    } else {
      assert updated[..n - 1] == nodes[..n - 1][k := v];
      CountUsedUpdate(nodes[..n - 1], k, v);
    }
  }

  lemma CountUsedAppend(nodes: seq<Flags>, v: Flags)
    ensures CountUsed(nodes + [v]) == CountUsed(nodes) + UsedBit(v)
  {
    assert (nodes + [v])[..|nodes|] == nodes;
  }

  /** Two lists with the same `Used` bits hold the same number of allocated ids. */
  lemma {:induction false} CountUsedSameBits(a: seq<Flags>, b: seq<Flags>)
    requires |a| == |b|
    requires forall i :: 0 <= i < |a| ==> (HasFlag(a[i], Used) <==> HasFlag(b[i], Used))
    ensures CountUsed(a) == CountUsed(b)
    decreases |a|
  {
    if |a| > 0 {
      CountUsedSameBits(a[..|a| - 1], b[..|b| - 1]);
    }
  }

  /** Every id is allocated exactly when the count reaches the capacity. */
  lemma {:induction false} CountUsedFull(nodes: seq<Flags>)
    ensures CountUsed(nodes) == |nodes| <==> forall i :: 0 <= i < |nodes| ==> HasFlag(nodes[i], Used)
    decreases |nodes|
  {
    if |nodes| > 0 {
      var init := nodes[..|nodes| - 1];
      CountUsedFull(init);
      if CountUsed(nodes) == |nodes| {
        forall i | 0 <= i < |nodes|
          ensures HasFlag(nodes[i], Used)
        {
          if i < |init| {
            assert nodes[i] == init[i];
          }
        }
      }
      if forall i :: 0 <= i < |nodes| ==> HasFlag(nodes[i], Used) {
        forall i | 0 <= i < |init|
          ensures HasFlag(init[i], Used)
        {
          assert init[i] == nodes[i];
        }
      }
    }
  }

  /** A full root means a full tree: every node below an `AllUsed` root is `AllUsed`. */
  lemma {:induction false} FullFromRoot(nodes: seq<Flags>, i: int)
    requires Wellformed(nodes) && |nodes| > 0 && nodes[0] == AllUsed
    requires 0 <= i < |nodes|
    ensures nodes[i] == AllUsed
    decreases i
  {
    if i > 0 {
      FullFromRoot(nodes, Parent(i));
      assert Consistent(nodes, Parent(i));
      assert Left(Parent(i)) == i || Right(Parent(i)) == i;
    }
  }

  /** While some id is free the root is not `AllUsed`, so the descent in `Allocate` may start. */
  lemma RootNotFull(nodes: seq<Flags>)
    requires Wellformed(nodes) && CountUsed(nodes) < |nodes|
    ensures |nodes| > 0 && nodes[0] != AllUsed
  {
    if nodes[0] == AllUsed {
      forall i | 0 <= i < |nodes|
        ensures HasFlag(nodes[i], Used)
      {
        FullFromRoot(nodes, i);
      }
      CountUsedFull(nodes);
    }
  }

  /** A used node whose subtree is not full has a child whose subtree is not full: the descent never
      reaches the throw. */
  lemma DescentStep(nodes: seq<Flags>, id: int)
    requires Wellformed(nodes) && 0 <= id < |nodes|
    requires HasFlag(nodes[id], Used) && nodes[id] != AllUsed
    ensures (Left(id) < |nodes| && nodes[Left(id)] != AllUsed) || (Right(id) < |nodes| && nodes[Right(id)] != AllUsed)
  {
    assert Consistent(nodes, id);
  }

  /** Replacing node `c` by a value with the same `ChildrenUsed` bit keeps every node but `c`'s parent
      consistent. */
  lemma UpdateFrame(nodes: seq<Flags>, c: int, v: Flags, updated: seq<Flags>)
    requires Wellformed(nodes) && 0 <= c < |nodes| && updated == nodes[c := v]
    requires HasFlag(v, ChildrenUsed) == HasFlag(nodes[c], ChildrenUsed)
    ensures forall i :: 0 <= i < |updated| && (c == 0 || i != Parent(c)) ==> Consistent(updated, i)
  {
    forall i | 0 <= i < |nodes| && (c == 0 || i != Parent(c))
      ensures Consistent(updated, i)
    {
      assert Consistent(nodes, i);
      assert Left(i) != c && Right(i) != c;
    }
  }

  /** One step of the repair that follows an allocation: recomputing node `c` from its children makes
      it consistent, and only `c`'s parent may be left inconsistent. */
  lemma RepairStep(nodes: seq<Flags>, c: int, v: Flags, updated: seq<Flags>)
    requires 0 <= c < |nodes| && updated == nodes[c := v]
    requires forall i :: 0 <= i < |nodes| && i != c ==> Consistent(nodes, i)
    requires HasFlag(v, ChildrenUsed) <==> ChildFull(nodes, Left(c)) && ChildFull(nodes, Right(c))
    ensures forall i :: 0 <= i < |updated| && (c == 0 || i != Parent(c)) ==> Consistent(updated, i)
  {
    forall i | 0 <= i < |nodes| && (c == 0 || i != Parent(c))
      ensures Consistent(updated, i)
    {
      assert Left(c) != c && Right(c) != c;
      if i != c {
        assert Consistent(nodes, i);
        assert Left(i) != c && Right(i) != c;
      }
    }
  }

  /** One step of the repair that follows a free: clearing `ChildrenUsed` at `c`, one of whose children
      is not full, makes `c` consistent and not full, and only `c`'s parent may be left inconsistent. */
  lemma ClearStep(nodes: seq<Flags>, c: int, child: int, updated: seq<Flags>)
    requires 0 <= c < |nodes| && 0 < child < |nodes| && Parent(child) == c && nodes[child] != AllUsed
    requires forall i :: 0 <= i < |nodes| && i != c ==> Consistent(nodes, i)
    requires updated == nodes[c := nodes[c] & Used]
    ensures forall i :: 0 <= i < |updated| && (c == 0 || i != Parent(c)) ==> Consistent(updated, i)
    ensures updated[c] != AllUsed
  {
    assert Left(c) == child || Right(c) == child;
    RepairStep(nodes, c, nodes[c] & Used, updated);
  }

  /** Replacing a node by one with the same `Used` bit keeps agreement on `Used` bits with a reference. */
  lemma SameUsedBits(nodes: seq<Flags>, c: int, v: Flags, updated: seq<Flags>, reference: seq<Flags>)
    requires 0 <= c < |nodes| == |reference| && updated == nodes[c := v]
    requires HasFlag(v, Used) == HasFlag(nodes[c], Used)
    requires forall i :: 0 <= i < |nodes| ==> (HasFlag(nodes[i], Used) <==> HasFlag(reference[i], Used))
    ensures forall i :: 0 <= i < |updated| ==> (HasFlag(updated[i], Used) <==> HasFlag(reference[i], Used))
  {
  }

  /** Appending an `AllUsed` node keeps the tree consistent. */
  lemma AppendFull(nodes: seq<Flags>)
    requires Wellformed(nodes)
    ensures Wellformed(nodes + [AllUsed])
  {
    var grown := nodes + [AllUsed];
    forall i | 0 <= i < |grown|
      ensures Consistent(grown, i)
    {
      if i < |nodes| {
        assert Consistent(nodes, i);
        assert ChildFull(grown, Left(i)) == ChildFull(nodes, Left(i));
        assert ChildFull(grown, Right(i)) == ChildFull(nodes, Right(i));
      }
    }
  }

  /** The `Used` bits determine a consistent flag list completely, so the postconditions of `Allocate`
      and `Free` pin down the whole new list. */
  lemma {:induction false} DeterminedAt(a: seq<Flags>, b: seq<Flags>, i: int)
    requires Wellformed(a) && Wellformed(b) && |a| == |b| && 0 <= i < |a|
    requires forall k :: 0 <= k < |a| ==> (HasFlag(a[k], Used) <==> HasFlag(b[k], Used))
    ensures a[i] == b[i]
    decreases |a| - i
  {
    if Left(i) < |a| {
      DeterminedAt(a, b, Left(i));
    }
    if Right(i) < |a| {
      DeterminedAt(a, b, Right(i));
    }
    assert Consistent(a, i) && Consistent(b, i);
    assert HasFlag(a[i], ChildrenUsed) == HasFlag(b[i], ChildrenUsed);
    assert HasFlag(a[i], Used) == HasFlag(b[i], Used);
  }

  lemma Determined(a: seq<Flags>, b: seq<Flags>)
    requires Wellformed(a) && Wellformed(b) && |a| == |b|
    requires forall k :: 0 <= k < |a| ==> (HasFlag(a[k], Used) <==> HasFlag(b[k], Used))
    ensures a == b
  {
    forall i | 0 <= i < |a|
      ensures a[i] == b[i]
    {
      DeterminedAt(a, b, i);
    }
  }

  class IdProvider {
    var nodes: seq<Flags>
    var count: int

    /** `Count` is the number of `Used` nodes and every node satisfies the flag invariant. */
    ghost predicate Valid()
      reads this
    {
      count == CountUsed(nodes) && Wellformed(nodes)
    }

    constructor()
      ensures Valid() && nodes == [] && count == 0
    {
      nodes := [];
      count := 0;
    }

    function Capacity(): int
      reads this
    {
      |nodes|
    }

    /** `IsAllocated(id)`: false unless `0 <= id < Capacity` holds; otherwise the node's `Used` flag. */
    function IsAllocated(id: int): (r: bool)
      reads this
      ensures r <==> 0 <= id < |nodes| && HasFlag(nodes[id], Used)
    {
      if id < 0 || id >= |nodes| then false else HasFlag(nodes[id], Used)
    }

    /** The descent of `Allocate`: from the root, into the left child when its subtree is not full,
        else into the right child, until a free node. */
    method Descend() returns (id: int)
      requires Wellformed(nodes) && CountUsed(nodes) < |nodes|
      ensures 0 <= id < |nodes| && !HasFlag(nodes[id], Used)
    {
      id := 0;
      RootNotFull(nodes);
      while HasFlag(nodes[id], Used)
        invariant 0 <= id < |nodes| && nodes[id] != AllUsed
        decreases |nodes| - id
      {
        var left := 2 * id + 1;
        var right := 2 * id + 2;
        if left < |nodes| && (!HasFlag(nodes[left], Used) || !HasFlag(nodes[left], ChildrenUsed)) {
          id := left;
          continue;
        }
        if right < |nodes| && (!HasFlag(nodes[right], Used) || !HasFlag(nodes[right], ChildrenUsed)) {
          id := right;
          continue;
        }
        DescentStep(nodes, id);
        assert false;
      }
    }

    /** `Allocate()`: appends a node when every id is taken; otherwise descends, left child first, to a
        free node, marks it and repairs the `ChildrenUsed` flags of its ancestors. */
    method Allocate() returns (id: int)
      requires Valid()
      modifies this
      ensures Valid()
      ensures !old(IsAllocated(id)) && IsAllocated(id)
      ensures count == old(count) + 1
      ensures forall j :: j != id ==> (IsAllocated(j) <==> old(IsAllocated(j)))
      ensures old(count) == old(Capacity()) ==> id == old(Capacity()) && Capacity() == old(Capacity()) + 1
      ensures old(count) < old(Capacity()) ==> Capacity() == old(Capacity())
    {
      id := 0;
      if count == |nodes| {
        id := count;
        AppendFull(nodes);
        CountUsedAppend(nodes, AllUsed);
        nodes := nodes + [AllUsed];
        count := count + 1;
        return id;
      }
      count := count + 1;
      id := Descend();
      CountUsedUpdate(nodes, id, nodes[id] | Used);
      UpdateFrame(nodes, id, nodes[id] | Used, nodes[id := nodes[id] | Used]);
      nodes := nodes[id := nodes[id] | Used];
      RepairAncestors(id);
    }

    /** The repair pass of `Allocate`: walks from the parent of `id` up to the root, recomputing each
        node's `ChildrenUsed` flag from its two children while keeping its `Used` flag. The source
        writes `Nodes[currentId]` twice (mask, then set the flag); the model computes the same final
        status in a local first, which is equivalent because neither child index equals `currentId`. */
    method RepairAncestors(id: int)
      requires 0 <= id < |nodes|
      requires forall i :: 0 <= i < |nodes| && (id == 0 || i != Parent(id)) ==> Consistent(nodes, i)
      requires count == CountUsed(nodes)
      modifies this
      ensures Wellformed(nodes) && count == old(count) == CountUsed(nodes) && |nodes| == old(|nodes|)
      ensures forall i :: 0 <= i < |nodes| ==> (HasFlag(nodes[i], Used) <==> HasFlag(old(nodes)[i], Used))
    {
      ghost var marked := nodes;
      if id > 0 {
        var currentId := (id - 1) / 2;
        while currentId >= 0
          invariant 0 <= currentId < |nodes| == |marked| && count == old(count) == CountUsed(marked)
          invariant forall i :: 0 <= i < |nodes| && i != currentId ==> Consistent(nodes, i)
          invariant forall i :: 0 <= i < |nodes| ==> (HasFlag(nodes[i], Used) <==> HasFlag(marked[i], Used))
          decreases currentId
        {
          var left := 2 * currentId + 1;
          var right := 2 * currentId + 2;
          var status := nodes[currentId] & Used;
          var leftUsed := left >= |nodes| || nodes[left] == AllUsed;
          var rightUsed := right >= |nodes| || nodes[right] == AllUsed;
          if leftUsed && rightUsed {
            status := status | ChildrenUsed;
          }
          RepairStep(nodes, currentId, status, nodes[currentId := status]);
          SameUsedBits(nodes, currentId, status, nodes[currentId := status], marked);
          nodes := nodes[currentId := status];
          if currentId == 0 {
            break;
          }
          currentId := (currentId - 1) / 2;
        }
        CountUsedSameBits(nodes, marked);
      }
    }


    /** `Free(id)`: throws for an id not in `0 <= id < Capacity` or one not allocated; otherwise clears its
        `Used` flag and the `ChildrenUsed` flag of every ancestor. */
    method Free(id: int) returns (r: Result<()>)
      requires Valid()
      modifies this
      ensures Valid()
      ensures (id < 0 || id >= old(Capacity())) ==> r == Throws(IndexOutOfRange)
      ensures 0 <= id < old(Capacity()) && !old(IsAllocated(id)) ==> r == Throws(InvalidOperation)
      ensures r.Throws? ==> nodes == old(nodes) && count == old(count)
      ensures old(IsAllocated(id)) ==> r == Ok(()) && !IsAllocated(id) && count == old(count) - 1
      ensures Capacity() == old(Capacity())
      ensures forall j :: j != id ==> (IsAllocated(j) <==> old(IsAllocated(j)))
    {
      if id < 0 || id >= |nodes| {
        return Throws(IndexOutOfRange);
      }
      if !IsAllocated(id) {
        return Throws(InvalidOperation);
      }
      CountUsedUpdate(nodes, id, nodes[id] & ChildrenUsed);
      UpdateFrame(nodes, id, nodes[id] & ChildrenUsed, nodes[id := nodes[id] & ChildrenUsed]);
      nodes := nodes[id := nodes[id] & ChildrenUsed];
      count := count - 1;
      ghost var cleared := nodes;
      if id == 0 {
        return Ok(());
      }
      ghost var child := id;
      var current := (id - 1) / 2;
      while current >= 0
        invariant 0 <= current < |nodes| == |cleared| && count == CountUsed(cleared)
        invariant 0 < child < |nodes| && Parent(child) == current && nodes[child] != AllUsed
        invariant forall i :: 0 <= i < |nodes| && i != current ==> Consistent(nodes, i)
        invariant forall i :: 0 <= i < |nodes| ==> (HasFlag(nodes[i], Used) <==> HasFlag(cleared[i], Used))
        decreases current
      {
        ClearStep(nodes, current, child, nodes[current := nodes[current] & Used]);
        nodes := nodes[current := nodes[current] & Used];
        if current == 0 {
          break;
        }
        child := current;
        current := (current - 1) / 2;
      }
      CountUsedSameBits(nodes, cleared);
      r := Ok(());
    }

    /** `Allocate<T>(container, value)`: allocates, then appends `value` when the id is the container's
        length, overwrites slot `id` when it is smaller, and throws (with the id still newId) when
        it is larger. */
    method AllocateInto<T>(container: Lists.List<T>, value: T) returns (r: Result<int>, ghost id: int)
      requires Valid()
      modifies this, container
      ensures Valid()
      ensures !old(IsAllocated(id)) && IsAllocated(id) && count == old(count) + 1
      ensures forall j :: j != id ==> (IsAllocated(j) <==> old(IsAllocated(j)))
      ensures id > |old(container.Items)| ==> r == Throws(IndexOutOfRange) && container.Items == old(container.Items)
      ensures id == |old(container.Items)| ==> r == Ok(id) && container.Items == old(container.Items) + [value]
      ensures id < |old(container.Items)| ==> r == Ok(id) && container.Items == old(container.Items)[id := value]
    {
      var newId := Allocate();
      id := newId;
      if newId > container.Count() {
        return Throws(IndexOutOfRange), id;
      }
      if newId == container.Count() {
        container.Add(value);
      } else {
        container.Set(newId, value);
      }
      r := Ok(newId);
    }

    /** `Free<T>(id, container, nullValue)`: frees, then throws if the container has no slot `id`, and
        otherwise writes `nullValue` there. */
    method FreeFrom<T>(id: int, container: Lists.List<T>, nullValue: T) returns (r: Result<()>)
      requires Valid()
      modifies this, container
      ensures Valid()
      ensures (id < 0 || id >= old(Capacity())) ==> r == Throws(IndexOutOfRange)
      ensures 0 <= id < old(Capacity()) && !old(IsAllocated(id)) ==> r == Throws(InvalidOperation)
      ensures !old(IsAllocated(id)) ==> r.Throws? && nodes == old(nodes) && count == old(count)
      ensures !old(IsAllocated(id)) ==> container.Items == old(container.Items)
      ensures old(IsAllocated(id)) ==> !IsAllocated(id) && count == old(count) - 1
      ensures old(IsAllocated(id)) && id >= |old(container.Items)| ==> r == Throws(IndexOutOfRange) && container.Items == old(container.Items)
      ensures old(IsAllocated(id)) && id < |old(container.Items)| ==> r == Ok(()) && container.Items == old(container.Items)[id := nullValue]
      ensures forall j :: j != id ==> (IsAllocated(j) <==> old(IsAllocated(j)))
    {
      r := Free(id);
      if r.Throws? {
        return r;
      }
      if id >= container.Count() {
        return Throws(IndexOutOfRange);
      }
      container.Set(id, nullValue);
    }
  }

  /** Allocating `k` times from a new provider with no frees hands out `0, 1, ..., k - 1` and leaves a
      provider whose capacity and count are both `k` and in which exactly those ids are allocated. */
  method AllocateSequentially(k: nat) returns (provider: IdProvider, ids: seq<int>)
    ensures provider.Valid() && provider.Capacity() == k && provider.count == k
    ensures ids == seq(k, i => i)
    ensures forall j :: provider.IsAllocated(j) <==> 0 <= j < k
  {
    provider := new IdProvider();
    ids := [];
    for i := 0 to k
      invariant provider.Valid() && provider.count == provider.Capacity() == i
      invariant ids == seq(i, j => j)
    {
      var id := provider.Allocate();
      ids := ids + [id];
    }
    CountUsedFull(provider.nodes);
  }
}
