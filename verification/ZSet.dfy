/** The sorted set that emulates Redis's: members kept in score order under unique
    names. */
module ZSet {

  const RS: char := 30 as char // between records
  const US: char := 31 as char // between score and name

  datatype Member = Member(score: int, name: string)

  ghost predicate Sorted(ms: seq<Member>) {
    forall i, j | 0 <= i < j < |ms| :: ms[i].score <= ms[j].score
  }

  ghost predicate Unique(ms: seq<Member>) {
    forall i, j | 0 <= i < j < |ms| :: ms[i].name != ms[j].name
  }

  ghost predicate Fresh(ms: seq<Member>, name: string) {
    forall i | 0 <= i < |ms| :: ms[i].name != name
  }

  /** The members above a score, in order. */
  function Above(ms: seq<Member>, cutoff: int): seq<Member> {
    if ms == [] then []
    else Above(ms[..|ms| - 1], cutoff) + if ms[|ms| - 1].score > cutoff then [ms[|ms| - 1]] else []
  }

  class ZSet {
    var members: seq<Member>

    constructor (members: seq<Member>)
      ensures this.members == members
    {
      this.members := members;
    }

    /** Inserts a member, or moves the one of that name to its new score. */
    method Add(score: int, name: string)
      requires Unique(members)
      modifies this
      ensures Sorted(members) && Unique(members)
      ensures forall m :: m in members <==> m == Member(score, name) || (m in old(members) && m.name != name)
      ensures Fresh(old(members), name) && Sorted(old(members) + [Member(score, name)]) ==>
        members == old(members) + [Member(score, name)]
    {
      for i := 0 to |members|
        invariant members == old(members) && forall k | 0 <= k < i :: members[k].name != name
      {
        if members[i].name == name {
          members := members[i := Member(score, name)];
          ghost var updated := members;
          UpdatedMembers(old(members), i, score);
          Resort();
          SamePopulation(updated, members);
          return;
        }
      }
      members := members + [Member(score, name)];
      ghost var appended := members;
      Resort();
      SamePopulation(appended, members);
    }

    /** Drops every member up to a score. */
    method RemoveUpTo(cutoff: int)
      requires Sorted(members)
      modifies this
      ensures members == Above(old(members), cutoff)
    {
      var idx := 0;
      while idx < |members| && members[idx].score <= cutoff
        invariant 0 <= idx <= |members|
        invariant forall k | 0 <= k < idx :: members[k].score <= cutoff
      {
        idx := idx + 1;
      }
      AboveIsSuffix(members, cutoff, idx);
      if idx > 0 {
        members := members[idx..];
      }
    }

    /** Insertion sort by adjacent swaps. */
    method Resort()
      modifies this
      ensures Sorted(members) && multiset(members) == multiset(old(members))
      ensures Sorted(old(members)) ==> members == old(members)
    {
      var i := 1;
      while i < |members|
        invariant 1 <= i && |members| == |old(members)| && (i <= |members| || members == [])
        invariant multiset(members) == multiset(old(members))
        invariant members != [] ==> Sorted(members[..i])
        invariant Sorted(old(members)) ==> members == old(members)
        decreases |old(members)| - i
      {
        Sink(i);
        i := i + 1;
      }
      assert members != [] ==> members[..i] == members;
    }

    /** Moves member `i` down to its place among the sorted ones before it. */
    method Sink(i: nat)
      requires i < |members| && Sorted(members[..i])
      modifies this
      ensures |members| == |old(members)| && Permuted(members, old(members))
      ensures Sorted(members[..i + 1])
      ensures i > 0 && old(members)[i - 1].score <= old(members)[i].score ==> members == old(members)
    {
      hide SortedBut, Sorted, Permuted, Swapped;
      AddedIsSortedBut(members, i);
      PermutedSame(members);
      var j := i;
      while j > 0 && members[j - 1].score > members[j].score
        invariant 0 <= j <= i < |members| == |old(members)|
        invariant Permuted(members, old(members))
        invariant SortedBut(members, i + 1, j)
        invariant i > 0 && old(members)[i - 1].score <= old(members)[i].score ==> j == i && members == old(members)
      {
        SwapDown(members, i + 1, j);
        SwapPermutes(members, j, old(members));
        members := Swapped(members, j);
        j := j - 1;
      }
      PlacedIsSorted(members, i + 1, j);
    }
  }

  ghost predicate Permuted(a: seq<Member>, b: seq<Member>) {
    multiset(a) == multiset(b)
  }

  lemma PermutedSame(ms: seq<Member>)
    ensures Permuted(ms, ms)
  {
  }

  lemma SwapPermutes(ms: seq<Member>, j: nat, original: seq<Member>)
    requires 0 < j < |ms| && Permuted(ms, original)
    ensures Permuted(Swapped(ms, j), original)
  {
  }

  /** The first `n` members are in order, save that member `j` may have to go down. */
  ghost predicate SortedBut(ms: seq<Member>, n: nat, j: nat)
    requires j < n <= |ms|
  {
    && (forall a, b | 0 <= a < b < n && a != j && b != j :: ms[a].score <= ms[b].score)
    && (forall b | j < b < n :: ms[j].score <= ms[b].score)
  }

  lemma PlacedIsSorted(ms: seq<Member>, n: nat, j: nat)
    requires j < n <= |ms| && SortedBut(ms, n, j) && (j > 0 ==> ms[j - 1].score <= ms[j].score)
    ensures Sorted(ms[..n])
  {
  }

  function Swapped(ms: seq<Member>, j: nat): (s: seq<Member>)
    requires 0 < j < |ms|
    ensures |s| == |ms|
  {
    ms[j - 1 := ms[j]][j := ms[j - 1]]
  }

  lemma SwapDown(ms: seq<Member>, n: nat, j: nat)
    requires 0 < j < n <= |ms| && SortedBut(ms, n, j) && ms[j - 1].score > ms[j].score
    ensures SortedBut(Swapped(ms, j), n, j - 1)
  {
  }

  lemma AddedIsSortedBut(ms: seq<Member>, i: nat)
    requires i < |ms| && Sorted(ms[..i])
    ensures SortedBut(ms, i + 1, i)
  {
    forall a, b | 0 <= a < b < i
      ensures ms[a].score <= ms[b].score
    {
      assert ms[..i][a].score <= ms[..i][b].score;
    }
  }

  lemma {:induction false} AboveIsSuffix(ms: seq<Member>, cutoff: int, idx: nat)
    requires idx <= |ms|
    requires forall k | 0 <= k < idx :: ms[k].score <= cutoff
    requires forall k | idx <= k < |ms| :: ms[k].score > cutoff
    ensures Above(ms, cutoff) == ms[idx..]
  {
    if |ms| > idx {
      AboveIsSuffix(ms[..|ms| - 1], cutoff, idx);
      assert ms[idx..] == ms[..|ms| - 1][idx..] + [ms[|ms| - 1]];
    } else if ms != [] {
      AboveIsSuffix(ms[..|ms| - 1], cutoff, idx - 1);
    }
  }

  lemma UpdatedMembers(ms: seq<Member>, i: nat, score: int)
    requires i < |ms| && Unique(ms)
    ensures var ms' := ms[i := Member(score, ms[i].name)];
            && Unique(ms')
            && forall m :: m in ms' <==> m == Member(score, ms[i].name) || (m in ms && m.name != ms[i].name)
  {
    var ms' := ms[i := Member(score, ms[i].name)];
    assert ms'[i] == Member(score, ms[i].name);
    forall k | 0 <= k < |ms| && k != i
      ensures ms[k].name != ms[i].name && ms[k] in ms'
    {
      assert ms'[k] == ms[k];
    }
  }

  /** Reordering changes neither the members nor the uniqueness of their names. */
  lemma SamePopulation(a: seq<Member>, b: seq<Member>)
    requires multiset(a) == multiset(b) && Unique(a)
    ensures Unique(b) && forall m :: m in a <==> m in b
  {
    assert forall m :: m in a <==> m in multiset(a);
    assert forall m :: m in b <==> m in multiset(b);
    forall i, j | 0 <= i < j < |b|
      ensures b[i].name != b[j].name
    {
      TwiceCounted(b, i, j);
      UniqueOnce(a, b[i]);
      assert b[i] in a && b[j] in a;
    }
  }

  lemma TwiceCounted(ms: seq<Member>, i: nat, j: nat)
    requires i < j < |ms|
    ensures ms[i] == ms[j] ==> multiset(ms)[ms[i]] >= 2
  {
    assert ms == ms[..j] + ms[j..];
    assert ms[i] == ms[..j][i] && ms[j] == ms[j..][0];
    assert ms[i] in multiset(ms[..j]) && ms[j] in multiset(ms[j..]);
  }

  lemma {:induction false} UniqueOnce(ms: seq<Member>, m: Member)
    requires Unique(ms)
    ensures multiset(ms)[m] <= 1
  {
    if ms != [] {
      var rest, last := ms[..|ms| - 1], ms[|ms| - 1];
      assert ms == rest + [last];
      UniqueOnce(rest, m);
      if last == m {
        assert m !in rest;
        assert m !in multiset(rest);
      }
    }
  }
}
