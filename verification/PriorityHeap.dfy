/** The heap of priority waiters: a max-heap by priority, first come first served
    within one, whose tokens know their own position so that a cancelled waiter can
    be taken out of the middle. */
module PriorityHeap {
  class Token {
    const priority: int
    const seqNo: nat
    /** The position in the heap, or -1 outside it. */
    var index: int

    constructor (priority: int, seqNo: nat)
      ensures this.priority == priority && this.seqNo == seqNo
    {
      this.priority := priority;
      this.seqNo := seqNo;
      index := -1;
    }
  }

  /** Served before: higher priority, or an earlier arrival of the same. */
  predicate Less(a: Token, b: Token) {
    if a.priority != b.priority then a.priority > b.priority else a.seqNo < b.seqNo
  }

  function Parent(k: int): int
    requires k > 0
  {
    (k - 1) / 2
  }

  // Heap order

  predicate Ordered(q: seq<Token>, k: int)
    requires 0 < k < |q|
  {
    !Less(q[k], q[Parent(k)])
  }

  /** The first `n` entries form a heap. */
  ghost predicate Heap(q: seq<Token>, n: nat)
    requires n <= |q|
  {
    forall k | 0 < k < n :: Ordered(q, k)
  }

  /** The children of `i` may be compared with its parent. */
  ghost predicate Bridged(q: seq<Token>, n: nat, i: nat)
    requires n <= |q|
  {
    forall k | 0 < k < n && Parent(k) == i && i > 0 :: !Less(q[k], q[Parent(i)])
  }

  /** A heap but for the entry at `i`, which may be too far up or too far down. */
  ghost predicate HeapBut(q: seq<Token>, n: nat, i: nat)
    requires n <= |q|
  {
    (forall k | 0 < k < n && k != i && Parent(k) != i :: Ordered(q, k)) && Bridged(q, n, i)
  }

  function Swapped(q: seq<Token>, i: nat, j: nat): (q': seq<Token>)
    requires i < |q| && j < |q|
    ensures |q'| == |q|
  {
    q[i := q[j]][j := q[i]]
  }

  lemma SwappedContents(q: seq<Token>, i: nat, j: nat)
    requires i < |q| && j < |q|
    ensures multiset(Swapped(q, i, j)) == multiset(q)
  {
  }

  lemma {:induction false} RootIsFirst(q: seq<Token>, n: nat, k: nat)
    requires k < n <= |q| && Heap(q, n)
    ensures q[k].priority < q[0].priority || (q[k].priority == q[0].priority && q[0].seqNo <= q[k].seqNo)
  {
    if k > 0 {
      assert Ordered(q, k);
      RootIsFirst(q, n, Parent(k));
    }
  }

  /** Moving the entry at `j` one level up. */
  lemma UpStep(q: seq<Token>, n: nat, j: nat)
    requires 0 < j < n <= |q| && Less(q[j], q[Parent(j)])
    requires (forall k | 0 < k < n && k != j :: Ordered(q, k)) && Bridged(q, n, j)
    ensures var q', i := Swapped(q, j, Parent(j)), Parent(j);
            (forall k | 0 < k < n && k != i :: Ordered(q', k)) && Bridged(q', n, i)
  {
    var q', i := Swapped(q, j, Parent(j)), Parent(j);
    forall k | 0 < k < n && k != i
      ensures Ordered(q', k)
    {
      if k != j {
        assert Ordered(q, k);
      }
    }
    forall k | 0 < k < n && Parent(k) == i && i > 0
      ensures !Less(q'[k], q'[Parent(i)])
    {
      assert Ordered(q, i);
      if k != j {
        assert Ordered(q, k);
      }
    }
  }

  /** An entry that started at `start` has come down to `i`. */
  ghost predicate Sinking(q: seq<Token>, n: nat, start: nat, i: nat) {
    start <= i < n <= |q| && HeapBut(q, n, i) && (i > start ==> Ordered(q, i))
  }

  lemma SinkStart(q: seq<Token>, n: nat, start: nat)
    requires start < n <= |q| && HeapBut(q, n, start)
    ensures Sinking(q, n, start, start)
  {
  }

  lemma SwappedTail(q: seq<Token>, n: nat, i: nat, j: nat)
    requires i < n <= |q| && j < n
    ensures Swapped(q, i, j)[n..] == q[n..]
  {
  }

  /** Moving the entry at `i` down to its first child. */
  lemma DownStep(q: seq<Token>, n: nat, start: nat, i: nat, j: nat)
    requires Sinking(q, n, start, i) && IsFirstChild(q, n, i, j) && Less(q[j], q[i])
    ensures Sinking(Swapped(q, i, j), n, start, j)
  {
    FirstChild(q, n, i, j);
    var q' := Swapped(q, i, j);
    forall k | 0 < k < n && Parent(k) != j
      ensures Ordered(q', k)
    {
      Children(j, i);
      if k != i && Parent(k) != i {
        assert Ordered(q, k);
      }
    }
    forall k | 0 < k < n && Parent(k) == j
      ensures !Less(q'[k], q'[Parent(j)])
    {
      assert Ordered(q, k);
    }
  }

  /** The children of `i`. */
  lemma Children(k: int, i: nat)
    requires k > 0 && Parent(k) == i
    ensures k == 2 * i + 1 || k == 2 * i + 2
  {
  }

  predicate IsFirstChild(q: seq<Token>, n: nat, i: nat, j: nat) {
    n <= |q| && j < n && j == (if 2 * i + 2 < n && Less(q[2 * i + 2], q[2 * i + 1]) then 2 * i + 2 else 2 * i + 1)
  }

  /** The child the scan picks comes before its sibling. */
  lemma FirstChild(q: seq<Token>, n: nat, i: nat, j: nat)
    requires IsFirstChild(q, n, i, j)
    ensures Parent(j) == i && forall k | 0 < k < n && Parent(k) == i :: !Less(q[k], q[j])
    ensures !Less(q[j], q[i]) ==> forall k | 0 < k < n && Parent(k) == i :: Ordered(q, k)
  {
    forall k | 0 < k < n && Parent(k) == i
      ensures !Less(q[k], q[j]) && (!Less(q[j], q[i]) ==> Ordered(q, k))
    {
      Children(k, i);
    }
  }

  /** Once no child comes before it, the entry is in place, unless it never moved and
      has yet to be compared with its parent. */
  lemma Sunk(q: seq<Token>, n: nat, start: nat, i: nat, j: nat)
    requires Sinking(q, n, start, i)
    requires 2 * i + 1 >= n || (IsFirstChild(q, n, i, j) && !Less(q[j], q[i]))
    ensures if i > start then Heap(q, n) else forall k | 0 < k < n && k != start :: Ordered(q, k)
  {
    if 2 * i + 1 < n {
      FirstChild(q, n, i, j);
    }
  }

  class PriorityQueue {
    var pq: seq<Token>

    ghost predicate Indexed()
      reads this, pq
    {
      forall i | 0 <= i < |pq| :: pq[i].index == i
    }

    ghost predicate Valid()
      reads this, pq
    {
      Indexed() && Heap(pq, |pq|)
    }

    constructor ()
      ensures Valid() && pq == []
    {
      pq := [];
    }

    method Swap(i: nat, j: nat)
      requires i < |pq| && j < |pq| && Indexed()
      modifies this, pq[i], pq[j]
      ensures Indexed() && pq == Swapped(old(pq), i, j) && SameTokens(pq, old(pq))
    {
      SwappedContents(pq, i, j);
      pq := pq[i := pq[j]][j := pq[i]];
      pq[i].index := i;
      pq[j].index := j;
    }

    method Up(start: nat, n: nat)
      requires start < n <= |pq| && Indexed() && Bridged(pq, n, start)
      requires forall k | 0 < k < n && k != start :: Ordered(pq, k)
      modifies this, pq
      ensures |pq| == |old(pq)| && Indexed() && SameTokens(pq, old(pq)) && Heap(pq, n) && pq[n..] == old(pq)[n..]
    {
      hide SameTokens, Bridged;
      SameReflexive(pq);
      var j: nat := start;
      while true
        invariant j < n <= |pq| && Indexed() && Bridged(pq, n, j)
        invariant |pq| == |old(pq)| && SameTokens(pq, old(pq)) && pq[n..] == old(pq)[n..]
        invariant forall k | 0 < k < n && k != j :: Ordered(pq, k)
        decreases j
      {
        var i := if j == 0 then 0 else (j - 1) / 2;
        if i == j || !Less(pq[j], pq[i]) {
          break;
        }
        UpStep(pq, n, j);
        ghost var before := pq;
        SameMembers(pq, old(pq));
        assert pq[i] in old(pq) && pq[j] in old(pq);
        Swap(j, i);
        SameTransitive(pq, before, old(pq));
        SwappedTail(before, n, j, i);
        j := i;
      }
    }

    method Down(start: nat, n: nat) returns (moved: bool)
      requires start < n <= |pq| && Indexed() && HeapBut(pq, n, start)
      modifies this, pq
      ensures |pq| == |old(pq)| && Indexed() && SameTokens(pq, old(pq)) && pq[n..] == old(pq)[n..]
      ensures if moved then Heap(pq, n)
              else pq == old(pq) && forall k | 0 < k < n && k != start :: Ordered(pq, k)
    {
      hide SameTokens, Less, Sinking, HeapBut, Heap, Ordered, Swapped;
      var i: nat := start;
      SameReflexive(pq);
      SinkStart(pq, n, start);
      var j: nat := 0;
      while true
        invariant Sinking(pq, n, start, i) && i < n <= |pq| && Indexed()
        invariant |pq| == |old(pq)| && SameTokens(pq, old(pq)) && pq[n..] == old(pq)[n..]
        invariant start <= i && (i == start ==> pq == old(pq))
        decreases n - i
      {
        var j1 := 2 * i + 1;
        if j1 >= n {
          break;
        }
        j := j1;
        if j1 + 1 < n && Less(pq[j1 + 1], pq[j1]) {
          j := j1 + 1;
        }
        if !Less(pq[j], pq[i]) {
          break;
        }
        DownStep(pq, n, start, i, j);
        ghost var before := pq;
        SameMembers(pq, old(pq));
        assert pq[i] in old(pq) && pq[j] in old(pq);
        Swap(i, j);
        SameTransitive(pq, before, old(pq));
        SwappedTail(before, n, i, j);
        i := j;
      }
      Sunk(pq, n, start, i, j);
      moved := i > start;
    }

    method Push(t: Token)
      requires Valid() && t !in pq
      modifies this, pq, t
      ensures Valid() && Contents(pq) == Contents(old(pq)) + multiset{t}
    {
      t.index := |pq|;
      AppendedHeap(pq, t);
      pq := pq + [t];
      Up(|pq| - 1, |pq|);
    }

    /** Drops the last entry of the slice. */
    method TakeLast() returns (t: Token)
      requires pq != [] && Indexed() && Heap(pq, |pq| - 1)
      modifies this, pq[|pq| - 1]
      ensures Valid() && pq == old(pq)[..|old(pq)| - 1] && t == old(pq)[|old(pq)| - 1] && t.index == -1
    {
      PrefixHeap(pq, |pq| - 1);
      t := pq[|pq| - 1];
      t.index := -1;
      pq := pq[..|pq| - 1];
    }

    method Pop() returns (t: Token)
      requires Valid() && pq != []
      modifies this, pq
      ensures Valid() && Contents(old(pq)) == Contents(pq) + multiset{t} && t.index == -1
      ensures t == old(pq)[0]
      ensures forall u | u in old(pq) :: u.priority < t.priority || (u.priority == t.priority && t.seqNo <= u.seqNo)
    {
      hide Heap, HeapBut, SameTokens, Contents;
      FirstOfAll(pq);
      var n := |pq| - 1;
      SwapOut(pq, 0);
      Swap(0, n);
      ghost var swapped := pq;
      if n > 0 {
        var moved := Down(0, n);
        OnlyRoot(pq, n, moved);
        assert pq[n] == pq[n..][0] == swapped[n..][0];
        SameTransitive(pq, swapped, old(pq));
      }
      LastOut(pq, old(pq));
      SameMembers(pq, old(pq));
      assert pq[n] in old(pq);
      t := TakeLast();
    }

    /** Takes the token at any position out. */
    method Remove(i: nat) returns (t: Token)
      requires Valid() && i < |pq|
      modifies this, pq
      ensures Valid() && Contents(old(pq)) == Contents(pq) + multiset{t} && t == old(pq)[i] && t.index == -1
    {
      hide Heap, HeapBut, Bridged, SameTokens, Contents, Less, Ordered;
      var n := |pq| - 1;
      SwapOut(pq, i);
      SameReflexive(pq);
      if n != i {
        Swap(i, n);
        ghost var swapped := pq;
        SameMembers(pq, old(pq));
        var moved := Down(i, n);
        ghost var sunk := pq;
        SameTransitive(pq, swapped, old(pq));
        SameMembers(pq, old(pq));
        if !moved {
          Up(i, n);
          SameTransitive(pq, sunk, old(pq));
        }
        assert pq[n] == pq[n..][0] == swapped[n..][0];
      }
      LastOut(pq, old(pq));
      SameMembers(pq, old(pq));
      assert pq[n] in old(pq);
      t := TakeLast();
    }
  }

  /** The heap order of everything but the entry just appended. */
  lemma AppendedHeap(q: seq<Token>, t: Token)
    requires Heap(q, |q|)
    ensures var r := q + [t];
            Bridged(r, |r|, |q|) && forall k | 0 < k < |r| && k != |q| :: Ordered(r, k)
  {
    var r := q + [t];
    forall k | 0 < k < |q|
      ensures Ordered(r, k)
    {
      assert Ordered(q, k);
    }
  }

  /** The last entry put in the place of the one at `i`. */
  lemma SwapOut(q: seq<Token>, i: nat)
    requires i < |q| && Heap(q, |q|)
    ensures var n := |q| - 1;
            var r := Swapped(q, i, n);
            r[n] == q[i] && (if i < n then HeapBut(r, n, i) && Bridged(r, n, i) else r == q && Heap(r, n))
  {
    var n := |q| - 1;
    var r := Swapped(q, i, n);
    if i < n {
      forall k | 0 < k < n && k != i && Parent(k) != i
        ensures Ordered(r, k)
      {
        assert Ordered(q, k);
      }
      forall k | 0 < k < n && Parent(k) == i && i > 0
        ensures !Less(r[k], r[Parent(i)])
      {
        assert Ordered(q, k) && Ordered(q, i);
      }
    }
  }

  lemma PrefixHeap(q: seq<Token>, n: nat)
    requires n <= |q| && Heap(q, n)
    ensures Heap(q[..n], n)
  {
    forall k | 0 < k < n
      ensures Ordered(q[..n], k)
    {
      assert Ordered(q, k);
    }
  }

  lemma OnlyRoot(q: seq<Token>, n: nat, moved: bool)
    requires n <= |q| && if moved then Heap(q, n) else forall k | 0 < k < n && k != 0 :: Ordered(q, k)
    ensures Heap(q, n)
  {
  }

  lemma FirstOfAll(q: seq<Token>)
    requires q != [] && Heap(q, |q|)
    ensures forall u | u in q :: u.priority < q[0].priority || (u.priority == q[0].priority && q[0].seqNo <= u.seqNo)
  {
    forall u | u in q
      ensures u.priority < q[0].priority || (u.priority == q[0].priority && q[0].seqNo <= u.seqNo)
    {
      var k :| 0 <= k < |q| && q[k] == u;
      RootIsFirst(q, |q|, k);
    }
  }

  lemma LastOut(q: seq<Token>, r: seq<Token>)
    requires q != [] && SameTokens(q, r)
    ensures Contents(r) == Contents(q[..|q| - 1]) + multiset{q[|q| - 1]}
  {
    assert q == q[..|q| - 1] + [q[|q| - 1]];
  }

  // Contents

  ghost function Contents(q: seq<Token>): multiset<Token> {
    multiset(q)
  }

  ghost predicate SameTokens(q: seq<Token>, r: seq<Token>) {
    |q| == |r| && multiset(q) == multiset(r)
  }

  lemma SameReflexive(q: seq<Token>)
    ensures SameTokens(q, q)
  {
  }

  lemma SameTransitive(q: seq<Token>, r: seq<Token>, s: seq<Token>)
    requires SameTokens(q, r) && SameTokens(r, s)
    ensures SameTokens(q, s)
  {
  }

  lemma SameMembers(q: seq<Token>, r: seq<Token>)
    requires SameTokens(q, r)
    ensures |q| == |r| && forall t :: t in q <==> t in r
  {
    forall t
      ensures t in q <==> t in r
    {
      assert t in q <==> t in multiset(q);
      assert t in r <==> t in multiset(r);
    }
  }
}
