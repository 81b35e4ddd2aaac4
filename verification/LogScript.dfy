/** The sliding-window log kept in the store: prune, count, and add one member per
    admitted unit, all inside one text value under a key that expires. */
module LogScript {
  import opened Ratelimit
  import opened Decimal
  import opened Records
  import opened ZSet
  import opened ZSetText
  import opened History
  import SlidingLog

  const MILLISECOND := 1_000_000

  /** What the store keeps: a score for each member name, and the instant after which it
      forgets them. */
  datatype Key = Key(stored: map<string, int>, expiresAt: Option<int>)

  const EMPTY := Key(map[], None)

  /** The members as a script finds them. */
  function Live(k: Key, now: int): map<string, int> {
    if k.expiresAt.Some? && now > k.expiresAt.value then map[] else k.stored
  }

  function Kept(m: map<string, int>, cutoff: int): map<string, int> {
    map x | x in m && m[x] > cutoff :: m[x]
  }

  /** The name of the i-th member an entry adds. */
  function Name(id: string, i: nat): string {
    id + "-" + FormatInt(i)
  }

  /** The members an entry writes; a name already there only gets the new score. */
  function Written(m: map<string, int>, id: string, n: nat, now: int): map<string, int> {
    if n == 0 then m else Written(m, id, n - 1, now)[Name(id, n) := now]
  }

  predicate Admits(limit: int, window: int, k: Key, n: int, now: int) {
    |Kept(Live(k, now), now - window)| + n <= limit
  }

  function CeilToSeconds(ms: int): int {
    (ms + 999) / 1000 * 1000
  }

  function After(limit: int, window: int, ttlMs: int, k: Key, id: string, n: nat, now: int): Key {
    var kept := Kept(Live(k, now), now - window);
    if Admits(limit, window, k, n, now) then Key(Written(kept, id, n, now), Some(now + ttlMs * MILLISECOND))
    else Key(kept, Some(now + CeilToSeconds(ttlMs) * MILLISECOND))
  }

  // The script on its text value

  /** The sorted set as scores by name. */
  function AsMap(ms: seq<Member>): map<string, int> {
    if ms == [] then map[] else AsMap(ms[..|ms| - 1])[ms[|ms| - 1].name := ms[|ms| - 1].score]
  }

  lemma {:induction false} AsMapMembers(ms: seq<Member>)
    requires Unique(ms)
    ensures |AsMap(ms)| == |ms|
    ensures forall x, v :: Member(v, x) in ms <==> x in AsMap(ms) && AsMap(ms)[x] == v
  {
    if ms != [] {
      var rest, last := ms[..|ms| - 1], ms[|ms| - 1];
      var other := if last.name in AsMap(rest) then AsMap(rest)[last.name] else 0;
      assert ms == rest + [last];
      AsMapMembers(rest);
      assert Member(other, last.name) !in rest;
    }
  }

  lemma {:induction false} AboveMembers(ms: seq<Member>, cutoff: int)
    ensures forall m :: m in Above(ms, cutoff) <==> m in ms && m.score > cutoff
  {
    if ms != [] {
      AboveMembers(ms[..|ms| - 1], cutoff);
      assert ms == ms[..|ms| - 1] + [ms[|ms| - 1]];
    }
  }

  ghost predicate Stored(ms: seq<Member>) {
    Sorted(ms) && Unique(ms) && Writable(ms)
  }

  lemma KeptStored(ms: seq<Member>, cutoff: int)
    requires Stored(ms)
    ensures Stored(Above(ms, cutoff)) && AsMap(Above(ms, cutoff)) == Kept(AsMap(ms), cutoff)
  {
    AboveStored(ms, cutoff);
    AboveMembers(ms, cutoff);
    AsMapMembers(ms);
    hide Above, Sorted, Unique, Writable, AsMap;
    SameMap(Above(ms, cutoff), Kept(AsMap(ms), cutoff));
  }

  lemma AboveStored(ms: seq<Member>, cutoff: int)
    requires Stored(ms)
    ensures Stored(Above(ms, cutoff))
  {
    var idx := 0;
    while idx < |ms| && ms[idx].score <= cutoff
      invariant idx <= |ms| && forall k | 0 <= k < idx :: ms[k].score <= cutoff
    {
      idx := idx + 1;
    }
    AboveIsSuffix(ms, cutoff, idx);
    hide Above;
    assert forall k | 0 <= k < |ms| - idx :: ms[idx..][k] == ms[idx + k];
  }

  /** A map that has exactly the members. */
  lemma SameMap(ms: seq<Member>, m: map<string, int>)
    requires Unique(ms) && forall x, v :: Member(v, x) in ms <==> x in m && m[x] == v
    ensures AsMap(ms) == m
  {
    AsMapMembers(ms);
    var a := AsMap(ms);
    forall x
      ensures x in a <==> x in m
      ensures x in a && x in m ==> a[x] == m[x]
    {
      if x in a {
        assert Member(a[x], x) in ms;
      }
      if x in m {
        assert Member(m[x], x) in ms;
      }
    }
  }

  /** What `Add` does to the map. */
  lemma AddedToMap(before: seq<Member>, after: seq<Member>, score: int, name: string)
    requires Unique(before) && Unique(after)
    requires forall m :: m in after <==> m == Member(score, name) || (m in before && m.name != name)
    ensures AsMap(after) == AsMap(before)[name := score]
  {
    AsMapMembers(before);
    SameMap(after, AsMap(before)[name := score]);
  }

  lemma AddedWritable(before: seq<Member>, after: seq<Member>, score: int, name: string)
    requires Writable(before) && IsInt64(score) && Free(name, RS)
    requires forall m :: m in after <==> m == Member(score, name) || (m in before && m.name != name)
    ensures Writable(after)
  {
    forall k | 0 <= k < |after|
      ensures IsInt64(after[k].score) && Free(after[k].name, RS)
    {
      assert after[k] in after;
    }
  }

  /** The least score. */
  ghost predicate IsOldest(m: map<string, int>, oldest: int) {
    (exists x :: x in m && m[x] == oldest) && forall x | x in m :: oldest <= m[x]
  }

  lemma FirstIsOldest(ms: seq<Member>)
    requires ms != [] && Stored(ms)
    ensures IsOldest(AsMap(ms), ms[0].score)
  {
    AsMapMembers(ms);
    var a := AsMap(ms);
    assert ms[0] in ms && Member(ms[0].score, ms[0].name) == ms[0];
    forall x | x in a
      ensures ms[0].score <= a[x]
    {
      assert Member(a[x], x) in ms;
    }
  }

  class LogEntry {
    var value: string
    var expiresAt: Option<int>
    /** The sorted set the value is the text of. */
    ghost var members: seq<Member>

    ghost predicate Valid()
      reads this
    {
      value == Text(members) && Stored(members)
    }

    ghost function Abstract(): Key
      reads this
    {
      Key(AsMap(members), expiresAt)
    }

    constructor ()
      ensures Valid() && Abstract() == EMPTY
    {
      value, expiresAt := "", None;
      members := [];
    }

    /** An expired entry is made anew before the script runs. */
    method Load(now: int)
      requires Valid()
      modifies this
      ensures Valid() && AsMap(members) == Live(old(Abstract()), now)
      ensures if old(expiresAt).Some? && now > old(expiresAt).value then Abstract() == EMPTY else Abstract() == old(Abstract())
    {
      if expiresAt.Some? && now > expiresAt.value {
        value, expiresAt := "", None;
        members := [];
      }
    }

    /** Whatever the entry id, also one used before. */
    method Handle(limit: int, window: int, now: int, id: string, ttlMs: int, n: int)
      returns (allowed: bool, count: int, retryAfter: int)
      requires Valid() && Free(id, RS) && IsInt64(now) && n >= 1 && ttlMs > 0
      modifies this
      ensures Valid() && Abstract() == After(limit, window, ttlMs, old(Abstract()), id, n, now)
      ensures allowed == Admits(limit, window, old(Abstract()), n, now)
      ensures var kept := Kept(Live(old(Abstract()), now), now - window);
              && count == |kept| + (if allowed then n else 0)
              && (if allowed || kept == map[] then retryAfter == 0
                  else exists oldest :: IsOldest(kept, oldest) && retryAfter == Max(window - (now - oldest), 0))
    {
      hide Sorted, Unique, Writable, Text, AsMap, Kept, Written, Above, IsOldest, Name;
      Load(now);
      ReadText(members);
      KeptStored(members, now - window);
      var parsed := Parse(value);
      var zs := new ZSet(parsed);
      zs.RemoveUpTo(now - window);
      ghost var kept := AsMap(zs.members);
      AsMapMembers(zs.members);
      count := |zs.members|;
      if count + n > limit {
        retryAfter := 0;
        if |zs.members| > 0 {
          FirstIsOldest(zs.members);
          retryAfter := window - (now - zs.members[0].score);
          if retryAfter < 0 {
            retryAfter := 0;
          }
        }
        value := Serialize(zs.members);
        members := zs.members;
        expiresAt := Some(now + CeilToSeconds(ttlMs) * MILLISECOND);
        return false, count, retryAfter;
      }
      WrittenStep(kept, id, 0, now);
      var i := 1;
      while i <= n
        invariant 1 <= i <= n + 1 && fresh(zs)
        invariant Stored(zs.members) && AsMap(zs.members) == Written(kept, id, i - 1, now)
      {
        ghost var before := zs.members;
        zs.Add(now, Name(id, i));
        AddedToMap(before, zs.members, now, Name(id, i));
        NameFree(id, i);
        AddedWritable(before, zs.members, now, Name(id, i));
        WrittenStep(kept, id, i, now);
        i := i + 1;
      }
      value := Serialize(zs.members);
      members := zs.members;
      expiresAt := Some(now + ttlMs * MILLISECOND);
      return true, count + n, 0;
    }
  }

  lemma WrittenStep(m: map<string, int>, id: string, i: nat, now: int)
    ensures Written(m, id, 0, now) == m
    ensures i > 0 ==> Written(m, id, i, now) == Written(m, id, i - 1, now)[Name(id, i) := now]
  {
  }

  /** Different entries, or different numbers, never make the same name. */
  lemma NameInjective(a: string, i: nat, b: string, j: nat)
    requires Name(a, i) == Name(b, j)
    ensures a == b && i == j
  {
    FormatAlphabet(i);
    FormatAlphabet(j);
    LastDash(a, FormatInt(i), b, FormatInt(j));
    ValueOfDigits(i);
    ValueOfDigits(j);
    hide Value, Digits;
  }

  lemma LastDash(a: string, d: string, b: string, e: string)
    requires a + "-" + d == b + "-" + e
    requires (forall k | 0 <= k < |d| :: d[k] != '-') && (forall k | 0 <= k < |e| :: e[k] != '-')
    ensures a == b && d == e
  {
    var s := a + "-" + d;
    assert s[|a|] == '-' && s[|b|] == '-';
    assert forall k | |a| < k < |s| :: s[k] == d[k - |a| - 1];
    assert forall k | |b| < k < |s| :: s[k] == e[k - |b| - 1];
    assert a == s[..|a|] && b == s[..|b|];
    assert d == s[|a| + 1..] && e == s[|b| + 1..];
  }

  lemma NameFree(id: string, i: nat)
    requires Free(id, RS)
    ensures Free(Name(id, i), RS)
  {
    FormatAlphabet(i);
  }

  // Whole runs

  datatype Call = Call(now: int, n: nat, id: string)

  function Requests(calls: seq<Call>): (rs: seq<Request>)
    ensures |rs| == |calls| && forall i | 0 <= i < |calls| :: rs[i] == Request(calls[i].now, calls[i].n)
  {
    seq(|calls|, i requires 0 <= i < |calls| => Request(calls[i].now, calls[i].n))
  }

  /** The time to live the distributed log asks for, in milliseconds. */
  function Ttl(window: int): int {
    window / MILLISECOND + 1000
  }

  /** Every call leaves the key a window and a second to live, to the millisecond; a denial
      rounds that up to whole seconds. */
  lemma KeyLifetime(limit: int, window: int, k: Key, id: string, n: nat, now: int)
    requires window > 0
    ensures var e := After(limit, window, Ttl(window), k, id, n, now).expiresAt;
            && e.Some?
            && now + window + 999 * MILLISECOND < e.value < now + window + 2000 * MILLISECOND
            && (Admits(limit, window, k, n, now) ==> e.value <= now + window + 1000 * MILLISECOND)
            && (!Admits(limit, window, k, n, now) ==> (e.value - now) % (1000 * MILLISECOND) == 0)
  {
    hide Admits, Written, Kept, Live;
  }

  /** The admission times of a run, with multiplicity. */
  function Admissions(limit: int, window: int, k: Key, calls: seq<Call>): seq<int>
    decreases |calls|
  {
    if calls == [] then []
    else
      var c := calls[0];
      (if Admits(limit, window, k, c.n, c.now) then Copies(c.now, c.n) else [])
      + Admissions(limit, window, After(limit, window, Ttl(window), k, c.id, c.n, c.now), calls[1..])
  }

  /** A key outlives every member it holds by a window. */
  ghost predicate Outlives(k: Key, window: int) {
    forall x | x in k.stored :: k.expiresAt.Some? && k.stored[x] + window <= k.expiresAt.value
  }

  /** So letting it expire loses nothing that still counts. */
  lemma ExpiryIsHarmless(k: Key, window: int, now: int)
    requires Outlives(k, window)
    ensures Kept(Live(k, now), now - window) == Kept(k.stored, now - window)
  {
  }

  lemma {:induction false} WrittenNames(m: map<string, int>, id: string, n: nat, now: int)
    ensures forall x :: x in Written(m, id, n, now) <==> x in m || exists i :: 1 <= i <= n && x == Name(id, i)
    ensures forall x | x in Written(m, id, n, now) ::
      Written(m, id, n, now)[x] == if exists i :: 1 <= i <= n && x == Name(id, i) then now else m[x]
  {
    hide Name;
    if n > 0 {
      WrittenNames(m, id, n - 1, now);
    }
  }

  lemma OutlivesAfter(limit: int, window: int, k: Key, c: Call)
    requires window > 0
    requires forall x | x in k.stored :: k.stored[x] <= c.now
    ensures var k' := After(limit, window, Ttl(window), k, c.id, c.n, c.now);
            Outlives(k', window) && forall x | x in k'.stored :: k'.stored[x] <= c.now
  {
    hide Name, Written;
    WrittenNames(Kept(Live(k, c.now), c.now - window), c.id, c.n, c.now);
  }

  /** Every name comes from one of these entries. */
  ghost predicate NamedBy(m: map<string, int>, ids: set<string>) {
    forall x | x in m :: Named(x, ids)
  }

  ghost predicate Named(name: string, ids: set<string>) {
    exists id, i: nat :: id in ids && name == Name(id, i)
  }

  /** A new entry's members all count as new. */
  lemma {:induction false} WrittenCount(m: map<string, int>, ids: set<string>, id: string, n: nat, now: int, cutoff: int)
    requires NamedBy(m, ids) && id !in ids
    ensures |Kept(Written(m, id, n, now), cutoff)| == |Kept(m, cutoff)| + if now > cutoff then n else 0
    ensures NamedBy(Written(m, id, n, now), ids + {id})
  {
    hide Name, Kept;
    WrittenNamed(m, ids, id, n, now);
    if n > 0 {
      WrittenCount(m, ids, id, n - 1, now, cutoff);
      var w, name := Written(m, id, n - 1, now), Name(id, n);
      NewName(m, ids, id, n, now);
      KeptFresh(w, name, now, cutoff);
    }
  }

  lemma WrittenNamed(m: map<string, int>, ids: set<string>, id: string, n: nat, now: int)
    requires NamedBy(m, ids)
    ensures NamedBy(Written(m, id, n, now), ids + {id})
  {
    hide Name, Written;
    WrittenNames(m, id, n, now);
    forall x | x in Written(m, id, n, now)
      ensures Named(x, ids + {id})
    {
      if x in m {
        var other, i: nat :| other in ids && x == Name(other, i);
        assert other in ids + {id};
      } else {
        var i :| 1 <= i <= n && x == Name(id, i);
        assert id in ids + {id};
      }
    }
  }

  lemma NewName(m: map<string, int>, ids: set<string>, id: string, n: nat, now: int)
    requires NamedBy(m, ids) && id !in ids && n >= 1
    ensures Name(id, n) !in Written(m, id, n - 1, now)
  {
    hide Name, Written;
    WrittenNames(m, id, n - 1, now);
    if Name(id, n) in m {
      var other, j: nat :| other in ids && Name(id, n) == Name(other, j);
      NameInjective(id, n, other, j);
    } else if Name(id, n) in Written(m, id, n - 1, now) {
      var j :| 1 <= j <= n - 1 && Name(id, n) == Name(id, j);
      NameInjective(id, n, id, j);
    }
  }

  lemma KeptFresh(m: map<string, int>, name: string, score: int, cutoff: int)
    requires name !in m
    ensures |Kept(m[name := score], cutoff)| == |Kept(m, cutoff)| + if score > cutoff then 1 else 0
  {
    var k := Kept(m[name := score], cutoff);
    if score > cutoff {
      assert k == Kept(m, cutoff)[name := score];
    } else {
      assert k == Kept(m, cutoff);
    }
  }

  /** Writing one name: the new score counts, the one it replaces no longer does. */
  lemma KeptUpdate(m: map<string, int>, name: string, score: int, cutoff: int)
    ensures |Kept(m[name := score], cutoff)| ==
      |Kept(m, cutoff)| + (if score > cutoff then 1 else 0) - (if name in m && m[name] > cutoff then 1 else 0)
  {
    hide Kept;
    var rest := m - {name};
    assert m[name := score] == rest[name := score];
    KeptFresh(rest, name, score, cutoff);
    if name in m {
      assert m == rest[name := m[name]];
      KeptFresh(rest, name, m[name], cutoff);
    } else {
      assert m == rest;
    }
  }

  /** The stored key and the in-process log count alike from `now` on. */
  ghost predicate Counts(k: Key, l: SlidingLog.KeyLog, window: int, now: int) {
    && Outlives(k, window) && (forall x | x in k.stored :: k.stored[x] <= now)
    && forall cutoff | cutoff >= now - window :: |Kept(k.stored, cutoff)| == |SlidingLog.From(l.timestamps, cutoff + 1)|
  }

  lemma SameDecision(limit: int, window: int, k: Key, l: SlidingLog.KeyLog, before: int, c: Call)
    requires window > 0 && c.n >= 1 && before <= c.now && Counts(k, l, window, before)
    ensures Kept(Live(k, c.now), c.now - window) == Kept(k.stored, c.now - window)
    ensures Admits(limit, window, k, c.n, c.now) == SlidingLog.Admits(SlidingLog.Config(limit, window - 1), l, c.n, c.now)
  {
    ExpiryIsHarmless(k, window, c.now);
    hide Kept, Live, SlidingLog.From;
    assert |Kept(k.stored, c.now - window)| == |SlidingLog.From(l.timestamps, c.now - window + 1)|;
  }

  /** What the two sides hold after a call they decide alike. */
  lemma AfterCall(limit: int, window: int, k: Key, l: SlidingLog.KeyLog, c: Call)
    requires c.n >= 1 && Kept(Live(k, c.now), c.now - window) == Kept(k.stored, c.now - window)
    requires Admits(limit, window, k, c.n, c.now) == SlidingLog.Admits(SlidingLog.Config(limit, window - 1), l, c.n, c.now)
    ensures var kept, live := Kept(k.stored, c.now - window), SlidingLog.From(l.timestamps, c.now - window + 1);
            var k' := After(limit, window, Ttl(window), k, c.id, c.n, c.now);
            var l' := SlidingLog.After(SlidingLog.Config(limit, window - 1), l, c.n, c.now);
            if Admits(limit, window, k, c.n, c.now)
            then k'.stored == Written(kept, c.id, c.n, c.now) && l'.timestamps == live + Copies(c.now, c.n)
            else k'.stored == kept && l'.timestamps == live + []
  {
    hide Kept, Live, Written, SlidingLog.From, Copies, Ttl;
  }

  lemma CountsStep(limit: int, window: int, k: Key, l: SlidingLog.KeyLog, ids: set<string>, before: int, c: Call)
    requires limit > 0 && window > 0 && c.n >= 1 && before <= c.now && c.id !in ids
    requires Counts(k, l, window, before) && NamedBy(k.stored, ids)
    ensures var cfg := SlidingLog.Config(limit, window - 1);
            var k' := After(limit, window, Ttl(window), k, c.id, c.n, c.now);
            && Admits(limit, window, k, c.n, c.now) == SlidingLog.Admits(cfg, l, c.n, c.now)
            && Counts(k', SlidingLog.After(cfg, l, c.n, c.now), window, c.now)
            && NamedBy(k'.stored, ids + {c.id})
  {
    hide SlidingLog.From, SlidingLog.After, SlidingLog.Admits, After, Admits, Written, Kept, Live, Copies, Ttl, NamedBy, Outlives;
    var k', l' := After(limit, window, Ttl(window), k, c.id, c.n, c.now),
                  SlidingLog.After(SlidingLog.Config(limit, window - 1), l, c.n, c.now);
    var floor := c.now - window;
    SameDecision(limit, window, k, l, before, c);
    AfterCall(limit, window, k, l, c);
    OutlivesAfter(limit, window, k, c);
    KeptNamed(k.stored, ids, floor, c.id);
    WrittenNamed(Kept(k.stored, floor), ids, c.id, c.n, c.now);
    forall cutoff | cutoff >= floor
      ensures |Kept(k'.stored, cutoff)| == |SlidingLog.From(l'.timestamps, cutoff + 1)|
    {
      assert |Kept(k.stored, cutoff)| == |SlidingLog.From(l.timestamps, cutoff + 1)|;
      CutoffAgrees(k.stored, l.timestamps, ids, c, floor, cutoff);
    }
  }

  lemma CutoffAgrees(m: map<string, int>, ts: seq<int>, ids: set<string>, c: Call, floor: int, cutoff: int)
    requires NamedBy(m, ids) && c.id !in ids && cutoff >= floor && |Kept(m, cutoff)| == |SlidingLog.From(ts, cutoff + 1)|
    ensures var kept, live := Kept(m, floor), SlidingLog.From(ts, floor + 1);
            && |Kept(kept, cutoff)| == |SlidingLog.From(live + [], cutoff + 1)|
            && |Kept(Written(kept, c.id, c.n, c.now), cutoff)| == |SlidingLog.From(live + Copies(c.now, c.n), cutoff + 1)|
  {
    var kept, live := Kept(m, floor), SlidingLog.From(ts, floor + 1);
    assert Kept(kept, cutoff) == Kept(m, cutoff);
    KeptNamed(m, ids, floor, c.id);
    hide SlidingLog.From, Written, Name, Kept, NamedBy;
    WrittenCount(kept, ids, c.id, c.n, c.now, cutoff);
    SlidingLog.FromComposes(ts, floor + 1, cutoff + 1);
    AdmittedFrom(live, c.n, c.now, cutoff + 1);
  }

  lemma KeptNamed(m: map<string, int>, ids: set<string>, cutoff: int, id: string)
    requires NamedBy(m, ids)
    ensures NamedBy(Kept(m, cutoff), ids) && NamedBy(Kept(m, cutoff), ids + {id})
  {
    forall x | x in Kept(m, cutoff)
      ensures Named(x, ids + {id})
    {
      var other, i: nat :| other in ids && x == Name(other, i);
      assert other in ids + {id};
    }
  }

  lemma AdmittedFrom(ts: seq<int>, n: nat, now: int, cutoff: int)
    ensures |SlidingLog.From(ts + Copies(now, n), cutoff)| == |SlidingLog.From(ts, cutoff)| + if now >= cutoff then n else 0
    ensures ts + [] == ts
  {
    SlidingLog.FromConcat(ts, Copies(now, n), cutoff);
    if now >= cutoff {
      SlidingLog.FromIsSuffix(Copies(now, n), cutoff, 0);
    } else {
      SlidingLog.FromIsSuffix(Copies(now, n), cutoff, n);
    }
  }

  ghost predicate Distinct(ids: seq<string>) {
    forall i, j | 0 <= i < j < |ids| :: ids[i] != ids[j]
  }

  function Ids(calls: seq<Call>): (ids: seq<string>)
    ensures |ids| == |calls| && forall i | 0 <= i < |calls| :: ids[i] == calls[i].id
  {
    seq(|calls|, i requires 0 <= i < |calls| => calls[i].id)
  }

  ghost predicate Ordered(calls: seq<Call>, start: int) {
    && (forall i | 0 <= i < |calls| :: calls[i].n >= 1 && start <= calls[i].now)
    && (forall i, j | 0 <= i < j < |calls| :: calls[i].now <= calls[j].now)
  }

  /** Under distinct entry ids the script, its key expiring, is the in-process log over a
      window one nanosecond shorter: it drops an entry exactly one window old, which the
      other still counts. */
  lemma {:induction false} IsSlidingLog(limit: int, window: int, k: Key, l: SlidingLog.KeyLog, ids: set<string>,
                                        calls: seq<Call>, now: int)
    requires limit > 0 && window > 0 && Counts(k, l, window, now) && NamedBy(k.stored, ids)
    requires Ordered(calls, now) && Distinct(Ids(calls)) && forall i | 0 <= i < |calls| :: calls[i].id !in ids
    ensures Admissions(limit, window, k, calls)
         == SlidingLog.Admissions(SlidingLog.Config(limit, window - 1), l, Requests(calls))
    decreases |calls|
  {
    hide Counts, NamedBy, After, Admits, Ordered, Distinct, Ids, SlidingLog.After, SlidingLog.Admits;
    if calls != [] {
      var c, rest := calls[0], calls[1..];
      var cfg := SlidingLog.Config(limit, window - 1);
      RestOf(calls, ids, now);
      CountsStep(limit, window, k, l, ids, now, c);
      assert Requests(calls)[1..] == Requests(rest);
      IsSlidingLog(limit, window, After(limit, window, Ttl(window), k, c.id, c.n, c.now),
                   SlidingLog.After(cfg, l, c.n, c.now), ids + {c.id}, rest, c.now);
    }
  }

  lemma RestOf(calls: seq<Call>, ids: set<string>, now: int)
    requires calls != [] && Ordered(calls, now) && Distinct(Ids(calls)) && forall i | 0 <= i < |calls| :: calls[i].id !in ids
    ensures var c, rest := calls[0], calls[1..];
            && c.n >= 1 && now <= c.now && Ordered(rest, c.now) && Distinct(Ids(rest))
            && forall i | 0 <= i < |rest| :: rest[i].id !in ids + {c.id}
  {
    var rest := calls[1..];
    assert forall i | 0 <= i < |rest| :: rest[i] == calls[i + 1] && Ids(rest)[i] == Ids(calls)[i + 1];
    assert Ids(calls)[0] == calls[0].id;
  }

  /** Every window (t - W, t] holds at most `limit` admissions, in every run whose calls
      have distinct entry ids. */
  lemma WindowBound(limit: int, window: int, calls: seq<Call>, start: int, t: int)
    requires limit > 0 && window > 0 && Ordered(calls, start) && Distinct(Ids(calls))
    ensures CountIn(Admissions(limit, window, EMPTY, calls), t - window + 1, t) <= limit
  {
    var cfg := SlidingLog.Config(limit, window - 1);
    var l := SlidingLog.Fresh(start);
    EmptyCounts(window, start);
    hide *;
    IsSlidingLog(limit, window, EMPTY, l, {}, calls, start);
    RequestsOrdered(calls, start);
    SlidingLog.WindowBound(cfg, Requests(calls), start, t - window + 1);
  }

  lemma EmptyCounts(window: int, start: int)
    ensures Counts(EMPTY, SlidingLog.Fresh(start), window, start) && NamedBy(EMPTY.stored, {})
  {
    assert forall cutoff :: Kept(map[], cutoff) == map[];
  }

  lemma RequestsOrdered(calls: seq<Call>, start: int)
    requires Ordered(calls, start)
    ensures Monotone(Requests(calls)) && forall r | r in Requests(calls) :: start <= r.now
  {
  }
}
