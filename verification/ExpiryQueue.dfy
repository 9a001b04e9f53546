/** The indexed min-heap of deadlines (`expiryQueue`), with the sifting steps of
    `container/heap` written out. */
module Expiry {
  import opened Bytes

  type Key = Bytes
  type Time = int

  datatype ExpiryNode = ExpiryNode(expiresAt: Time, key: Key)

  /** `(j - 1) / 2` with Go's division: the root is its own parent. */
  function Parent(j: nat): (p: nat)
    ensures p <= j && (j > 0 ==> p < j && (j == 2 * p + 1 || j == 2 * p + 2))
  {
    if j == 0 then 0 else (j - 1) / 2
  }

  /** Node c is not due before its parent. */
  ghost predicate Ordered(nodes: seq<ExpiryNode>, c: nat)
    requires c < |nodes|
  {
    nodes[Parent(c)].expiresAt <= nodes[c].expiresAt
  }

  ghost predicate HeapUpTo(nodes: seq<ExpiryNode>, n: nat)
    requires n <= |nodes|
  {
    forall c :: 0 <= c < n ==> Ordered(nodes, c)
  }

  /** A heap on the first n nodes but for node i, which may be due before its
      parent; its children are still due after that parent. */
  ghost predicate HeapButAt(nodes: seq<ExpiryNode>, i: nat, n: nat)
    requires i < |nodes| && n <= |nodes|
  {
    && (forall c :: 0 <= c < n && c != i ==> Ordered(nodes, c))
    && ChildrenBelowGrandparent(nodes, i, n)
  }

  /** A heap on the first n nodes but for node i, which may be due after its
      children, and, if it is still at i0, before its parent. */
  ghost predicate HeapButBelow(nodes: seq<ExpiryNode>, i: nat, i0: nat, n: nat)
    requires i < |nodes| && n <= |nodes|
  {
    && (forall c :: 0 <= c < n && Parent(c) != i && (c != i0 || i != i0) ==> Ordered(nodes, c))
    && (i != i0 ==> i < n && Ordered(nodes, i))
    && ChildrenBelowGrandparent(nodes, i, n)
  }

  ghost predicate ChildrenBelowGrandparent(nodes: seq<ExpiryNode>, i: nat, n: nat)
    requires i < |nodes| && n <= |nodes|
  {
    i > 0 ==> forall c :: 0 < c < n && Parent(c) == i ==> nodes[Parent(i)].expiresAt <= nodes[c].expiresAt
  }

  lemma {:induction false} RootIsEarliest(nodes: seq<ExpiryNode>, i: nat)
    requires i < |nodes| && HeapUpTo(nodes, |nodes|)
    ensures nodes[0].expiresAt <= nodes[i].expiresAt
  {
    if i > 0 {
      assert Ordered(nodes, i);
      RootIsEarliest(nodes, Parent(i));
    }
  }

  function Swapped(nodes: seq<ExpiryNode>, i: nat, j: nat): seq<ExpiryNode>
    requires i < |nodes| && j < |nodes|
  {
    nodes[i := nodes[j]][j := nodes[i]]
  }

  /** One round of sifting up. */
  lemma SiftUp(nodes: seq<ExpiryNode>, j: nat, n: nat)
    requires j < n <= |nodes| && HeapButAt(nodes, j, n)
    requires nodes[j].expiresAt < nodes[Parent(j)].expiresAt
    ensures HeapButAt(Swapped(nodes, Parent(j), j), Parent(j), n)
  {
    var i := Parent(j);
    var s := Swapped(nodes, i, j);
    forall c | 0 <= c < n && c != i ensures Ordered(s, c) {
      assert c != j ==> Ordered(nodes, c);
    }
    forall c | 0 < c < n && Parent(c) == i ensures s[Parent(i)].expiresAt <= s[c].expiresAt {
      assert c != j ==> Ordered(nodes, c);
      assert Ordered(nodes, i);
    }
  }

  ghost predicate EarliestChild(nodes: seq<ExpiryNode>, i: nat, j: nat, n: nat)
    requires j < n <= |nodes|
  {
    forall c :: 0 < c < n && Parent(c) == i ==> nodes[j].expiresAt <= nodes[c].expiresAt
  }

  /** No child of i is due before it: sifting down ends. */
  lemma Settled(nodes: seq<ExpiryNode>, i: nat, i0: nat, n: nat)
    requires i0 <= i < n <= |nodes| && HeapButBelow(nodes, i, i0, n)
    requires 2 * i + 1 < n ==>
               exists j: nat :: j < n && EarliestChild(nodes, i, j, n) && nodes[i].expiresAt <= nodes[j].expiresAt
    ensures if i > i0 || i0 == 0 then HeapUpTo(nodes, n) else HeapButAt(nodes, i0, n)
  {
    assert forall c: nat :: 0 < c < n && Parent(c) == i ==> 2 * i + 1 < n && Ordered(nodes, c);
    assert forall c: nat :: c < n && Parent(c) == i && c == 0 ==> Ordered(nodes, c);
  }

  /** One round of sifting down, to the earlier child j. */
  lemma SiftDown(nodes: seq<ExpiryNode>, i: nat, j: nat, i0: nat, n: nat)
    requires i < j < n <= |nodes| && Parent(j) == i && HeapButBelow(nodes, i, i0, n)
    requires nodes[j].expiresAt < nodes[i].expiresAt && EarliestChild(nodes, i, j, n)
    requires i0 <= i
    ensures HeapButBelow(Swapped(nodes, i, j), j, i0, n)
  {
    var s := Swapped(nodes, i, j);
    assert forall c :: 0 < c < n ==> Parent(c) < c;
    forall c | 0 <= c < n && Parent(c) != j ensures Ordered(s, c) {
      if c == i {
        assert s[i] == nodes[j];
      } else if c > 0 && Parent(c) == i {
        assert c != j ==> s[c] == nodes[c];
      } else {
        assert Ordered(nodes, c);
        assert s[c] == nodes[c] && s[Parent(c)] == nodes[Parent(c)];
      }
    }
    forall c | 0 < c < n && Parent(c) == j ensures s[Parent(j)].expiresAt <= s[c].expiresAt {
      assert Ordered(nodes, c);
    }
  }

  /** The last node moved into place i of the rest of the heap. */
  lemma MovedLast(nodes: seq<ExpiryNode>, i: nat)
    requires i < |nodes| - 1 && HeapUpTo(nodes, |nodes|)
    ensures HeapButBelow(Swapped(nodes, i, |nodes| - 1), i, i, |nodes| - 1)
  {
    var n := |nodes| - 1;
    var s := Swapped(nodes, i, n);
    forall c | 0 <= c < n && Parent(c) != i && c != i ensures Ordered(s, c) {
      assert Ordered(nodes, c);
    }
    if i > 0 {
      forall c | 0 < c < n && Parent(c) == i ensures s[Parent(i)].expiresAt <= s[c].expiresAt {
        assert Ordered(nodes, c) && Ordered(nodes, i);
      }
    }
  }

  lemma AppendedLast(nodes: seq<ExpiryNode>, x: ExpiryNode)
    requires HeapUpTo(nodes, |nodes|)
    ensures HeapButAt(nodes + [x], |nodes|, |nodes| + 1)
  {
    forall c: nat | c < |nodes| + 1 && c != |nodes| ensures Ordered(nodes + [x], c) {
      assert Ordered(nodes, c);
    }
  }

  lemma OneNode(nodes: seq<ExpiryNode>)
    requires |nodes| == 1
    ensures HeapUpTo(nodes, 0)
  {
  }

  lemma HeapIsHeapButAtRoot(nodes: seq<ExpiryNode>, n: nat)
    requires 0 < n <= |nodes| && HeapUpTo(nodes, n)
    ensures HeapButAt(nodes, 0, n)
  {
  }

  /** A heap on the first n nodes stays one when the rest is cut off. */
  lemma HeapPrefix(nodes: seq<ExpiryNode>, n: nat)
    requires n <= |nodes|
    ensures HeapUpTo(nodes, |nodes|) ==> HeapUpTo(nodes, n)
    ensures HeapUpTo(nodes, n) ==> HeapUpTo(nodes[..n], n)
  {
    if HeapUpTo(nodes, n) {
      forall c: nat | c < n ensures Ordered(nodes[..n], c) {
        assert Ordered(nodes, c);
      }
    }
  }

  ghost predicate Indexed(nodes: seq<ExpiryNode>, index: map<Key, nat>) {
    && (forall k :: k in index ==> index[k] < |nodes| && nodes[index[k]].key == k)
    && (forall i :: 0 <= i < |nodes| ==> nodes[i].key in index && index[nodes[i].key] == i)
  }

  class ExpiryQueue {
    var nodes: seq<ExpiryNode>
    var index: map<Key, nat>

    /** `index` is the exact inverse of `nodes`. */
    ghost predicate Inverse()
      reads this
    {
      Indexed(nodes, index)
    }

    ghost predicate Valid()
      reads this
    {
      Inverse() && HeapUpTo(nodes, |nodes|)
    }

    /** The deadline held for every key. */
    ghost function Deadlines(): map<Key, Time>
      requires Inverse()
      reads this
    {
      map k | k in index :: nodes[index[k]].expiresAt
    }

    /** The root holds the earliest deadline of all keys. */
    lemma RootIsMinimum()
      requires Valid() && |nodes| > 0
      ensures nodes[0].key in Deadlines() && Deadlines()[nodes[0].key] == nodes[0].expiresAt
      ensures forall k :: k in Deadlines() ==> nodes[0].expiresAt <= Deadlines()[k]
    {
      hide HeapUpTo;
      forall k | k in index ensures nodes[0].expiresAt <= nodes[index[k]].expiresAt {
        RootIsEarliest(nodes, index[k]);
      }
    }

    constructor ()
      ensures Valid() && Deadlines() == map[]
    {
      nodes, index := [], map[];
    }

    method Swap(i: nat, j: nat)
      requires Inverse() && i < |nodes| && j < |nodes|
      modifies this
      ensures Inverse() && Deadlines() == old(Deadlines())
      ensures nodes == Swapped(old(nodes), i, j)
    {
      nodes := nodes[i := nodes[j]][j := nodes[i]];
      index := index[nodes[i].key := i];
      index := index[nodes[j].key := j];
    }

    /** `Push`: append at the end, out of heap order. */
    method Append(n: ExpiryNode)
      requires Inverse() && n.key !in index
      modifies this
      ensures Inverse() && Deadlines() == old(Deadlines())[n.key := n.expiresAt]
      ensures nodes == old(nodes) + [n]
    {
      index := index[n.key := |nodes|];
      nodes := nodes + [n];
    }

    /** `Pop`: take the last node away. */
    method TakeLast() returns (item: ExpiryNode)
      requires Inverse() && |nodes| > 0
      modifies this
      ensures Inverse() && Deadlines() == old(Deadlines()) - {item.key}
      ensures item == old(nodes)[|old(nodes)| - 1] && nodes == old(nodes)[..|old(nodes)| - 1]
    {
      var n := |nodes|;
      item := nodes[n - 1];
      nodes := nodes[..n - 1];
      index := index - {item.key};
    }

    method Up(j0: nat)
      requires Inverse() && j0 < |nodes|
      modifies this
      ensures Inverse() && Deadlines() == old(Deadlines()) && |nodes| == |old(nodes)|
      ensures forall n :: j0 < n <= |nodes| && old(HeapButAt(nodes, j0, n)) ==> HeapUpTo(nodes, n)
      ensures forall k :: j0 < k < |nodes| ==> nodes[k] == old(nodes)[k]
    {
      var j: nat := j0;
      while true
        invariant Inverse() && Deadlines() == old(Deadlines()) && |nodes| == |old(nodes)| && j <= j0
        invariant forall n :: j0 < n <= |nodes| && old(HeapButAt(nodes, j0, n)) ==> HeapButAt(nodes, j, n)
        invariant forall k :: j0 < k < |nodes| ==> nodes[k] == old(nodes)[k]
        decreases j
      {
        var i := Parent(j);
        if i == j || !(nodes[j].expiresAt < nodes[i].expiresAt) {
          assert Ordered(nodes, j);
          break;
        }
        forall n | j0 < n <= |nodes| && HeapButAt(nodes, j, n)
          ensures HeapButAt(Swapped(nodes, i, j), i, n)
        {
          SiftUp(nodes, j, n);
        }
        Swap(i, j);
        j := i;
      }
    }

    method Down(i0: nat, n: nat) returns (moved: bool)
      requires Inverse() && i0 < n <= |nodes| && HeapButBelow(nodes, i0, i0, n)
      modifies this
      ensures Inverse() && Deadlines() == old(Deadlines()) && |nodes| == |old(nodes)|
      ensures if moved || i0 == 0 then HeapUpTo(nodes, n) else HeapButAt(nodes, i0, n)
      ensures forall k :: n <= k < |nodes| ==> nodes[k] == old(nodes)[k]
    {
      hide HeapButBelow, HeapButAt, HeapUpTo, Indexed;
      var i: nat := i0;
      while true
        invariant Inverse() && Deadlines() == old(Deadlines()) && |nodes| == |old(nodes)|
        invariant i0 <= i < n && HeapButBelow(nodes, i, i0, n)
        invariant forall k :: n <= k < |nodes| ==> nodes[k] == old(nodes)[k]
        decreases n - i
      {
        var j1 := 2 * i + 1;
        if j1 >= n {
          Settled(nodes, i, i0, n);
          break;
        }
        var j: nat := j1;
        var j2 := j1 + 1;
        if j2 < n && nodes[j2].expiresAt < nodes[j1].expiresAt {
          j := j2;
        }
        assert EarliestChild(nodes, i, j, n);
        if !(nodes[j].expiresAt < nodes[i].expiresAt) {
          Settled(nodes, i, i0, n);
          break;
        }
        SiftDown(nodes, i, j, i0, n);
        Swap(i, j);
        i := j;
      }
      moved := i > i0;
    }

    /** `heap.Push`. */
    method Push(n: ExpiryNode)
      requires Valid() && n.key !in index
      modifies this
      ensures Valid() && Deadlines() == old(Deadlines())[n.key := n.expiresAt]
    {
      hide Indexed;
      AppendedLast(nodes, n);
      Append(n);
      assert HeapButAt(nodes, |nodes| - 1, |nodes|);
      Up(|nodes| - 1);
    }

    /** `heap.Pop`: the earliest node. */
    method Pop() returns (item: ExpiryNode)
      requires Valid() && |nodes| > 0
      modifies this
      ensures Valid() && Deadlines() == old(Deadlines()) - {item.key}
      ensures item == old(nodes)[0]
    {
      hide Indexed, HeapButBelow, HeapButAt, HeapUpTo;
      var n := |nodes| - 1;
      if n > 0 {
        MovedLast(nodes, 0);
        Swap(0, n);
        var _ := Down(0, n);
      } else {
        Swap(0, n);
        OneNode(nodes);
      }
      assert nodes[n] == old(nodes)[0];
      HeapPrefix(nodes, n);
      item := TakeLast();
    }

    /** `heap.Remove`. */
    method RemoveAt(i: nat)
      requires Valid() && i < |nodes|
      modifies this
      ensures Valid() && Deadlines() == old(Deadlines()) - {old(nodes)[i].key}
    {
      hide Indexed, HeapButBelow, HeapButAt, HeapUpTo;
      var n := |nodes| - 1;
      HeapPrefix(nodes, n);
      if n != i {
        MovedLast(nodes, i);
        Swap(i, n);
        var moved := Down(i, n);
        if !moved {
          if i == 0 {
            HeapIsHeapButAtRoot(nodes, n);
          }
          Up(i);
        }
      }
      assert nodes[n] == old(nodes)[i];
      HeapPrefix(nodes, n);
      var _ := TakeLast();
    }

    /** `remove`: the node of the key, if there is one. */
    method Remove(key: Key)
      requires Valid()
      modifies this
      ensures Valid() && Deadlines() == old(Deadlines()) - {key}
    {
      if key !in index {
        return;
      }
      RemoveAt(index[key]);
    }
  }
}
