/** The stored log when entry ids collide. An id is a timestamp and a sequence number of
    one process, so two processes can give the same one. A name written again replaces
    the member that was counted under it. */
module LogCollisions {
  import opened Ratelimit
  import opened History
  import opened LogScript

  /** The scores of the members that an entry's writes replace. */
  function Overwritten(m: map<string, int>, id: string, n: nat): seq<int> {
    if n == 0 then [] else Overwritten(m, id, n - 1) + if Name(id, n) in m then [m[Name(id, n)]] else []
  }

  function Admitted(limit: int, window: int, k: Key, c: Call): seq<int> {
    if Admits(limit, window, k, c.n, c.now) then Copies(c.now, c.n) else []
  }

  /** The members a call makes the log lose, by score. */
  function Replaced(limit: int, window: int, k: Key, c: Call): seq<int> {
    if Admits(limit, window, k, c.n, c.now) then Overwritten(Kept(Live(k, c.now), c.now - window), c.id, c.n) else []
  }

  function Next(limit: int, window: int, k: Key, c: Call): Key {
    After(limit, window, Ttl(window), k, c.id, c.n, c.now)
  }

  function Lost(limit: int, window: int, k: Key, calls: seq<Call>): seq<int>
    decreases |calls|
  {
    if calls == [] then []
    else Replaced(limit, window, k, calls[0]) + Lost(limit, window, Next(limit, window, k, calls[0]), calls[1..])
  }

  function Final(limit: int, window: int, k: Key, calls: seq<Call>): Key
    decreases |calls|
  {
    if calls == [] then k else Final(limit, window, Next(limit, window, k, calls[0]), calls[1..])
  }

  /** What of a history lies in the window that ends at `t`. */
  function InWindow(h: seq<int>, window: int, t: int): nat {
    CountIn(h, t - window + 1, t)
  }

  // One call

  lemma {:induction false} OverwrittenAtMost(m: map<string, int>, id: string, n: nat, now: int)
    requires forall x | x in m :: m[x] <= now
    ensures AtMost(Overwritten(m, id, n), now)
  {
    hide Name;
    if n > 0 {
      OverwrittenAtMost(m, id, n - 1, now);
    }
  }

  lemma OldName(m: map<string, int>, id: string, n: nat, now: int)
    requires n >= 1
    ensures var w, name := Written(m, id, n - 1, now), Name(id, n);
            (name in w <==> name in m) && (name in m ==> w[name] == m[name])
  {
    hide Name, Written;
    WrittenNames(m, id, n - 1, now);
    forall j | 1 <= j <= n - 1
      ensures Name(id, j) != Name(id, n)
    {
      if Name(id, j) == Name(id, n) {
        NameInjective(id, j, id, n);
      }
    }
  }

  /** Writing n members adds n to what counts, less those they replace. */
  lemma {:induction false} WrittenKeeps(m: map<string, int>, id: string, n: nat, now: int, cutoff: int)
    requires forall x | x in m :: m[x] <= now
    ensures |Kept(Written(m, id, n, now), cutoff)| + CountIn(Overwritten(m, id, n), cutoff + 1, now)
         == |Kept(m, cutoff)| + if now > cutoff then n else 0
  {
    hide Name, Kept, CountIn;
    if n == 0 {
      CountNone(Overwritten(m, id, 0), cutoff + 1, now);
    } else {
      var name := Name(id, n);
      WrittenKeeps(m, id, n - 1, now, cutoff);
      OldName(m, id, n, now);
      KeptUpdate(Written(m, id, n - 1, now), name, now, cutoff);
      var last := if name in m then [m[name]] else [];
      CountConcat(Overwritten(m, id, n - 1), last, cutoff + 1, now);
      CountLast(last, cutoff + 1, now);
    }
  }

  lemma CountLast(h: seq<int>, lo: int, hi: int)
    requires |h| <= 1
    ensures CountIn(h, lo, hi) == if h != [] && lo <= h[0] <= hi then 1 else 0
  {
    if h != [] {
      assert h[..0] == [];
    }
  }

  /** The books of a run: from now on, what was admitted is what is stored and what was
      lost. */
  ghost predicate Accounts(k: Key, admitted: seq<int>, lost: seq<int>, window: int, now: int) {
    && Outlives(k, window) && (forall x | x in k.stored :: k.stored[x] <= now)
    && AtMost(admitted, now) && AtMost(lost, now)
    && forall cutoff | cutoff >= now - window ::
         CountIn(admitted, cutoff + 1, now) == |Kept(k.stored, cutoff)| + CountIn(lost, cutoff + 1, now)
  }

  /** The books at a later instant before anything is called. */
  lemma AccountsLater(k: Key, admitted: seq<int>, lost: seq<int>, window: int, before: int, now: int, cutoff: int)
    requires Accounts(k, admitted, lost, window, before) && before <= now && cutoff >= now - window
    ensures CountIn(admitted, cutoff + 1, now) == |Kept(k.stored, cutoff)| + CountIn(lost, cutoff + 1, now)
  {
    hide CountIn, Kept, Outlives;
    CountUpTo(admitted, cutoff + 1, before, now);
    CountUpTo(lost, cutoff + 1, before, now);
    assert cutoff >= before - window;
  }

  /** Exactly when a call is admitted, in terms of the run before it. */
  lemma AdmittedIff(limit: int, window: int, k: Key, admitted: seq<int>, lost: seq<int>, before: int, c: Call)
    requires Accounts(k, admitted, lost, window, before) && before <= c.now
    ensures Admits(limit, window, k, c.n, c.now) <==>
      InWindow(admitted, window, c.now) - InWindow(lost, window, c.now) + c.n <= limit
    ensures Kept(Live(k, c.now), c.now - window) == Kept(k.stored, c.now - window)
  {
    ExpiryIsHarmless(k, window, c.now);
    AccountsLater(k, admitted, lost, window, before, c.now, c.now - window);
    hide Kept, CountIn, Live;
  }

  /** What a call leaves. */
  lemma NextIs(limit: int, window: int, k: Key, c: Call)
    requires Kept(Live(k, c.now), c.now - window) == Kept(k.stored, c.now - window)
    ensures var kept := Kept(k.stored, c.now - window);
            if Admits(limit, window, k, c.n, c.now)
            then && Next(limit, window, k, c).stored == Written(kept, c.id, c.n, c.now)
                 && Replaced(limit, window, k, c) == Overwritten(kept, c.id, c.n)
            else Next(limit, window, k, c).stored == kept && Replaced(limit, window, k, c) == []
  {
    hide Kept, Live, Written, Ttl;
  }

  lemma AccountsStep(limit: int, window: int, k: Key, admitted: seq<int>, lost: seq<int>, before: int, c: Call)
    requires window > 0 && Accounts(k, admitted, lost, window, before) && before <= c.now
    ensures Accounts(Next(limit, window, k, c), admitted + Admitted(limit, window, k, c),
                     lost + Replaced(limit, window, k, c), window, c.now)
  {
    hide CountIn, Written, Overwritten, Outlives, Live, Kept, Replaced, Copies, Admits, After, Ttl, AtMost;
    AdmittedIff(limit, window, k, admitted, lost, before, c);
    OutlivesAfter(limit, window, k, c);
    NextIs(limit, window, k, c);
    KeptAtMost(k.stored, c.now - window, c.now);
    OverwrittenAtMost(Kept(k.stored, c.now - window), c.id, c.n, c.now);
    var k', a, r := Next(limit, window, k, c), Admitted(limit, window, k, c), Replaced(limit, window, k, c);
    AtMostCopies(c.now, c.n);
    AtMostConcat(admitted, a, before, c.now);
    AtMostConcat(lost, r, before, c.now);
    forall cutoff | cutoff >= c.now - window
      ensures CountIn(admitted + a, cutoff + 1, c.now) == |Kept(k'.stored, cutoff)| + CountIn(lost + r, cutoff + 1, c.now)
    {
      AccountsLater(k, admitted, lost, window, before, c.now, cutoff);
      CountConcat(admitted, a, cutoff + 1, c.now);
      CountConcat(lost, r, cutoff + 1, c.now);
      CutoffStep(k.stored, c, c.now - window, cutoff);
    }
  }

  lemma AtMostCopies(t: int, n: nat)
    ensures AtMost(Copies(t, n), t) && AtMost([], t)
  {
  }

  lemma AtMostConcat(a: seq<int>, b: seq<int>, before: int, now: int)
    requires AtMost(a, before) && AtMost(b, now) && before <= now
    ensures AtMost(a + b, now)
  {
  }

  lemma KeptAtMost(m: map<string, int>, cutoff: int, now: int)
    requires forall x | x in m :: m[x] <= now
    ensures forall x | x in Kept(m, cutoff) :: Kept(m, cutoff)[x] <= now
  {
  }

  lemma CutoffStep(m: map<string, int>, c: Call, floor: int, cutoff: int)
    requires cutoff >= floor && forall x | x in m :: m[x] <= c.now
    ensures |Kept(Kept(m, floor), cutoff)| == |Kept(m, cutoff)|
    ensures |Kept(Written(Kept(m, floor), c.id, c.n, c.now), cutoff)|
          + CountIn(Overwritten(Kept(m, floor), c.id, c.n), cutoff + 1, c.now)
         == |Kept(m, cutoff)| + CountIn(Copies(c.now, c.n), cutoff + 1, c.now)
    ensures CountIn([], cutoff + 1, c.now) == 0
  {
    assert Kept(Kept(m, floor), cutoff) == Kept(m, cutoff);
    KeptAtMost(m, floor, c.now);
    hide Kept;
    WrittenKeeps(Kept(m, floor), c.id, c.n, c.now, cutoff);
    CountCopies(c.now, c.n, cutoff + 1, c.now);
  }

  // Whole runs

  function End(calls: seq<Call>, start: int): int {
    if calls == [] then start else calls[|calls| - 1].now
  }

  /** The books balance after every run, with any ids, counts and instants. */
  lemma {:induction false} AccountsRun(limit: int, window: int, k: Key, admitted: seq<int>, lost: seq<int>,
                                       calls: seq<Call>, now: int)
    requires window > 0 && Accounts(k, admitted, lost, window, now) && Ordered(calls, now)
    ensures Accounts(Final(limit, window, k, calls), admitted + Admissions(limit, window, k, calls),
                     lost + Lost(limit, window, k, calls), window, End(calls, now))
    decreases |calls|
  {
    hide Accounts;
    if calls == [] {
      assert admitted + [] == admitted && lost + [] == lost;
    } else {
      var c, rest := calls[0], calls[1..];
      AccountsStep(limit, window, k, admitted, lost, now, c);
      var k', a, r := Next(limit, window, k, c), Admitted(limit, window, k, c), Replaced(limit, window, k, c);
      assert Ordered(rest, c.now);
      AccountsRun(limit, window, k', admitted + a, lost + r, rest, c.now);
      Associative(admitted, a, Admissions(limit, window, k', rest));
      Associative(lost, r, Lost(limit, window, k', rest));
      assert End(rest, c.now) == End(calls, now);
      hide Next, Admitted, Replaced, Final, Lost, Admissions;
    }
  }

  lemma Associative(a: seq<int>, b: seq<int>, c: seq<int>)
    ensures a + (b + c) == a + b + c
  {
  }

  lemma EmptyAccounts(window: int, start: int)
    ensures Accounts(EMPTY, [], [], window, start)
  {
    assert forall cutoff :: Kept(map[], cutoff) == map[];
  }

  /** After every run the next call is admitted if and only if what was admitted in its
      window, less what was lost of it, leaves room. So it takes its window above the
      limit if and only if the lost members hide as much as that needs. */
  lemma OverAdmitsIff(limit: int, window: int, calls: seq<Call>, start: int, c: Call)
    requires window > 0 && Ordered(calls, start) && End(calls, start) <= c.now
    ensures var k := Final(limit, window, EMPTY, calls);
            var admitted := InWindow(Admissions(limit, window, EMPTY, calls), window, c.now);
            var lost := InWindow(Lost(limit, window, EMPTY, calls), window, c.now);
            && (Admits(limit, window, k, c.n, c.now) <==> admitted - lost + c.n <= limit)
            && (Admits(limit, window, k, c.n, c.now) && admitted + c.n > limit <==> limit < admitted + c.n <= limit + lost)
  {
    hide Accounts, InWindow, Admissions, Lost, Final, Admits, Kept, Live, Ordered;
    EmptyAccounts(window, start);
    AccountsRun(limit, window, EMPTY, [], [], calls, start);
    var admitted, lost := Admissions(limit, window, EMPTY, calls), Lost(limit, window, EMPTY, calls);
    assert [] + admitted == admitted && [] + lost == lost;
    AdmittedIff(limit, window, Final(limit, window, EMPTY, calls), admitted, lost, End(calls, start), c);
  }

  // When the bound holds

  ghost predicate Bounded(h: seq<int>, limit: int, window: int) {
    forall t :: InWindow(h, window, t) <= limit
  }

  ghost predicate Over(limit: int, window: int, admitted: seq<int>, lost: seq<int>, c: Call) {
    limit < InWindow(admitted, window, c.now) + c.n <= limit + InWindow(lost, window, c.now)
  }

  /** Some call of the run finds as much lost as takes its window above the limit. */
  ghost predicate SomeOver(limit: int, window: int, k: Key, admitted: seq<int>, lost: seq<int>, calls: seq<Call>)
    decreases |calls|
  {
    calls != [] &&
    (Over(limit, window, admitted, lost, calls[0]) ||
     SomeOver(limit, window, Next(limit, window, k, calls[0]), admitted + Admitted(limit, window, k, calls[0]),
              lost + Replaced(limit, window, k, calls[0]), calls[1..]))
  }

  /** One call: the histories stay bounded unless it is such a call, and not if it is. */
  lemma BoundStep(limit: int, window: int, k: Key, admitted: seq<int>, lost: seq<int>, before: int, c: Call)
    requires window > 0 && Accounts(k, admitted, lost, window, before) && before <= c.now && Bounded(admitted, limit, window)
    ensures Bounded(admitted + Admitted(limit, window, k, c), limit, window) <==> !Over(limit, window, admitted, lost, c)
    ensures Over(limit, window, admitted, lost, c) ==>
      InWindow(admitted + Admitted(limit, window, k, c), window, c.now) > limit
  {
    hide CountIn, Copies, Kept, Live;
    AdmittedIff(limit, window, k, admitted, lost, before, c);
    var a := Admitted(limit, window, k, c);
    if Admits(limit, window, k, c.n, c.now) {
      AdmittedInWindow(admitted, window, before, c, c.now);
      if !Over(limit, window, admitted, lost, c) {
        forall t
          ensures InWindow(admitted + a, window, t) <= limit
        {
          AdmittedInWindow(admitted, window, before, c, t);
        }
      }
    } else {
      assert admitted + a == admitted;
    }
  }

  /** A window that an admission falls in holds no more than the one that ends with it. */
  lemma AdmittedInWindow(admitted: seq<int>, window: int, before: int, c: Call, t: int)
    requires window > 0 && AtMost(admitted, before) && before <= c.now
    ensures InWindow(admitted + Copies(c.now, c.n), window, t) <=
      (if t - window < c.now <= t
       then InWindow(admitted, window, c.now) + c.n else InWindow(admitted, window, t))
    ensures InWindow(admitted + Copies(c.now, c.n), window, c.now) == InWindow(admitted, window, c.now) + c.n
  {
    CountConcat(admitted, Copies(c.now, c.n), t - window + 1, t);
    CountCopies(c.now, c.n, t - window + 1, t);
    CountConcat(admitted, Copies(c.now, c.n), c.now - window + 1, c.now);
    CountCopies(c.now, c.n, c.now - window + 1, c.now);
    if t >= c.now {
      CountUpTo(admitted, t - window + 1, before, t);
      CountUpTo(admitted, t - window + 1, before, c.now);
      CountWiden(admitted, t - window + 1, c.now, c.now - window + 1, c.now);
    }
  }

  lemma {:induction false} BoundFrom(limit: int, window: int, k: Key, admitted: seq<int>, lost: seq<int>,
                                     calls: seq<Call>, now: int)
    requires window > 0 && Accounts(k, admitted, lost, window, now) && Ordered(calls, now) && Bounded(admitted, limit, window)
    ensures Bounded(admitted + Admissions(limit, window, k, calls), limit, window)
       <==> !SomeOver(limit, window, k, admitted, lost, calls)
    decreases |calls|
  {
    hide Accounts, Over, InWindow;
    if calls == [] {
      assert admitted + [] == admitted;
    } else {
      var c, rest := calls[0], calls[1..];
      var k', a, r := Next(limit, window, k, c), Admitted(limit, window, k, c), Replaced(limit, window, k, c);
      BoundStep(limit, window, k, admitted, lost, now, c);
      AccountsStep(limit, window, k, admitted, lost, now, c);
      assert Ordered(rest, c.now);
      Associative(admitted, a, Admissions(limit, window, k', rest));
      if Over(limit, window, admitted, lost, c) {
        MoreInWindow(admitted + a, Admissions(limit, window, k', rest), window, c.now);
      } else {
        BoundFrom(limit, window, k', admitted + a, lost + r, rest, c.now);
      }
    }
  }

  lemma MoreInWindow(a: seq<int>, b: seq<int>, window: int, t: int)
    ensures InWindow(a + b, window, t) >= InWindow(a, window, t)
  {
    CountConcat(a, b, t - window + 1, t);
  }

  /** Every window of a run holds at most `limit` admissions if and only if no call of it
      finds lost members that hide as much as takes its window above the limit. */
  lemma BoundHoldsIff(limit: int, window: int, calls: seq<Call>, start: int)
    requires limit > 0 && window > 0 && Ordered(calls, start)
    ensures Bounded(Admissions(limit, window, EMPTY, calls), limit, window)
       <==> !SomeOver(limit, window, EMPTY, [], [], calls)
  {
    EmptyAccounts(window, start);
    assert [] + Admissions(limit, window, EMPTY, calls) == Admissions(limit, window, EMPTY, calls);
    BoundFrom(limit, window, EMPTY, [], [], calls, start);
  }

  // Ids that collide

  lemma {:induction false} OverwrittenAll(m: map<string, int>, id: string, n: nat, t: int)
    requires forall i: nat | 1 <= i <= n :: Name(id, i) in m && m[Name(id, i)] == t
    ensures Overwritten(m, id, n) == Copies(t, n)
  {
    hide Name;
    if n > 0 {
      OverwrittenAll(m, id, n - 1, t);
    }
  }

  lemma {:induction false} OverwrittenNone(id: string, n: nat)
    ensures Overwritten(map[], id, n) == []
  {
    if n > 0 {
      OverwrittenNone(id, n - 1);
    }
  }

  lemma NothingReplaced(limit: int, window: int, c: Call)
    requires Admits(limit, window, EMPTY, c.n, c.now)
    ensures Replaced(limit, window, EMPTY, c) == []
    ensures Next(limit, window, EMPTY, c).stored == Written(map[], c.id, c.n, c.now)
  {
    assert Kept(map[], c.now - window) == map[];
    OverwrittenNone(c.id, c.n);
  }

  /** The same entry again replaces all of its members. */
  lemma AllReplaced(limit: int, window: int, k: Key, t: int, c: Call)
    requires k.stored == Written(map[], c.id, c.n, t) && c.now - window < t
    requires Kept(Live(k, c.now), c.now - window) == Kept(k.stored, c.now - window) && Admits(limit, window, k, c.n, c.now)
    ensures Replaced(limit, window, k, c) == Copies(t, c.n)
  {
    hide Name, Written, Overwritten, Live;
    WrittenNames(map[], c.id, c.n, t);
    OverwrittenAll(Kept(k.stored, c.now - window), c.id, c.n, t);
  }

  lemma InWindowConcat(a: seq<int>, b: seq<int>, window: int, now: int)
    ensures InWindow(a + b, window, now) == InWindow(a, window, now) + InWindow(b, window, now)
    ensures InWindow([], window, now) == 0
  {
    CountConcat(a, b, now - window + 1, now);
  }

  lemma InWindowCopies(t: int, n: nat, window: int, now: int)
    requires now - window < t <= now
    ensures InWindow(Copies(t, n), window, now) == n
  {
    CountCopies(t, n, now - window + 1, now);
  }

  lemma AdmissionsStep(limit: int, window: int, k: Key, c: Call, rest: seq<Call>)
    ensures Admissions(limit, window, k, [c] + rest) ==
      Admitted(limit, window, k, c) + Admissions(limit, window, Next(limit, window, k, c), rest)
    ensures Final(limit, window, k, [c] + rest) == Final(limit, window, Next(limit, window, k, c), rest)
    ensures Admissions(limit, window, Next(limit, window, k, c), []) == []
  {
    assert ([c] + rest)[1..] == rest;
  }

  lemma ThreeCalls(limit: int, window: int, k: Key, a: Call, b: Call, c: Call)
    ensures var k1 := Next(limit, window, k, a);
            var k2 := Next(limit, window, k1, b);
            Admissions(limit, window, k, [a, b, c]) ==
              Admitted(limit, window, k, a) + Admitted(limit, window, k1, b) + Admitted(limit, window, k2, c)
  {
    hide Admissions, Final, Admitted, Next;
    var k1 := Next(limit, window, k, a);
    var k2 := Next(limit, window, k1, b);
    AdmissionsStep(limit, window, k, a, [b] + ([c] + []));
    AdmissionsStep(limit, window, k1, b, [c] + []);
    AdmissionsStep(limit, window, k2, c, []);
    assert [a] + ([b] + ([c] + [])) == [a, b, c];
  }

  /** One id twice within a window, and one more call of any id: three times what half the
      limit allows is admitted. Limit two and single units, limit four and pairs, at one
      instant or at three, are such runs. */
  lemma CollisionOverAdmits(limit: int, window: int, id: string, other: string, n: nat, t0: int, t1: int, t2: int)
    requires 2 * n <= limit < 3 * n && t0 <= t1 <= t2 < t0 + window
    ensures var calls := [Call(t0, n, id), Call(t1, n, id), Call(t2, n, other)];
            && Ordered(calls, t0)
            && Admissions(limit, window, EMPTY, calls) == Copies(t0, n) + Copies(t1, n) + Copies(t2, n)
            && InWindow(Admissions(limit, window, EMPTY, calls), window, t2) == 3 * n > limit
  {
    hide Accounts, InWindow, Name, Written, Overwritten, Kept, Live, Copies, After, Admits, Ttl, Admissions, Replaced, Next;
    var c0, c1, c2 := Call(t0, n, id), Call(t1, n, id), Call(t2, n, other);
    var a0, a1 := Copies(t0, n), Copies(t0, n) + Copies(t1, n);
    EmptyAccounts(window, t0);
    InWindowConcat([], [], window, t0);
    AdmittedIff(limit, window, EMPTY, [], [], t0, c0);
    NothingReplaced(limit, window, c0);
    AccountsStep(limit, window, EMPTY, [], [], t0, c0);
    var k1 := Next(limit, window, EMPTY, c0);
    var none: seq<int> := [];
    assert none + a0 == a0 && none + none == none;
    InWindowCopies(t0, n, window, t1);
    InWindowConcat([], [], window, t1);
    AdmittedIff(limit, window, k1, a0, [], t0, c1);
    AllReplaced(limit, window, k1, t0, c1);
    AccountsStep(limit, window, k1, a0, [], t0, c1);
    var k2 := Next(limit, window, k1, c1);
    assert [] + a0 == a0;
    InWindowCopies(t0, n, window, t2);
    InWindowCopies(t1, n, window, t2);
    InWindowCopies(t2, n, window, t2);
    InWindowConcat(Copies(t0, n), Copies(t1, n), window, t2);
    AdmittedIff(limit, window, k2, a1, a0, t1, c2);
    ThreeCalls(limit, window, EMPTY, c0, c1, c2);
    InWindowConcat(a1, Copies(t2, n), window, t2);
  }

  /** One call for one unit under each id, at one instant. */
  function OneEach(ids: seq<string>, now: int): (calls: seq<Call>)
    ensures |calls| == |ids| && forall i | 0 <= i < |ids| :: calls[i] == Call(now, 1, ids[i])
  {
    seq(|ids|, i requires 0 <= i < |ids| => Call(now, 1, ids[i]))
  }

  function Names(ids: seq<string>, now: int): map<string, int> {
    if ids == [] then map[] else Names(ids[..|ids| - 1], now)[Name(ids[|ids| - 1], 1) := now]
  }

  function KeyOf(ids: seq<string>, window: int, now: int): Key {
    Key(Names(ids, now), if ids == [] then None else Some(now + Ttl(window) * MILLISECOND))
  }

  lemma {:induction false} NamesAre(ids: seq<string>, now: int)
    ensures forall x :: Name(x, 1) in Names(ids, now) <==> x in ids
    ensures forall x | x in Names(ids, now) :: Names(ids, now)[x] == now
  {
    hide Name;
    if ids != [] {
      var rest, last := ids[..|ids| - 1], ids[|ids| - 1];
      assert ids == rest + [last];
      NamesAre(rest, now);
      forall x
        ensures Name(x, 1) in Names(ids, now) <==> x in ids
      {
        if Name(x, 1) == Name(last, 1) {
          NameInjective(x, 1, last, 1);
        }
      }
    }
  }

  /** There is one name for each different id. */
  lemma {:induction false} NamesCount(ids: seq<string>, now: int)
    ensures |Names(ids, now)| <= |ids| && (|Names(ids, now)| == |ids| <==> Distinct(ids))
  {
    hide Name, Distinct;
    if ids == [] {
      DistinctNone();
    } else {
      var rest, last := ids[..|ids| - 1], ids[|ids| - 1];
      NamesCount(rest, now);
      NamesAre(rest, now);
      DistinctSnoc(rest, last);
      assert rest + [last] == ids;
    }
  }

  lemma DistinctNone()
    ensures Distinct([])
  {
  }

  lemma DistinctSnoc(ids: seq<string>, last: string)
    ensures Distinct(ids + [last]) <==> Distinct(ids) && last !in ids
  {
    var all := ids + [last];
    if Distinct(all) {
      assert forall i | 0 <= i < |ids| :: all[i] == ids[i] && all[i] != all[|ids|];
    }
  }

  lemma CollidingStep(limit: int, window: int, ids: seq<string>, id: string, now: int)
    requires window > 0 && |Names(ids, now)| + 1 <= limit
    ensures Admits(limit, window, KeyOf(ids, window, now), 1, now)
    ensures Next(limit, window, KeyOf(ids, window, now), Call(now, 1, id)) == KeyOf(ids + [id], window, now)
  {
    NamesAre(ids, now);
    var m := Names(ids, now);
    assert Kept(m, now - window) == m;
    assert (ids + [id])[..|ids|] == ids;
    hide Name, Names;
    assert Written(m, id, 1, now) == Written(m, id, 0, now)[Name(id, 1) := now];
  }

  /** As many calls as the limit are all admitted, whatever their ids. */
  lemma {:induction false} AllAdmitted(limit: int, window: int, ids: seq<string>, i: nat, now: int)
    requires window > 0 && i <= |ids| <= limit
    ensures Admissions(limit, window, KeyOf(ids[..i], window, now), OneEach(ids, now)[i..]) == Copies(now, |ids| - i)
    ensures Final(limit, window, KeyOf(ids[..i], window, now), OneEach(ids, now)[i..]) == KeyOf(ids, window, now)
    decreases |ids| - i
  {
    hide After, Admits, KeyOf, Names, Copies, Ttl, Next;
    var calls := OneEach(ids, now)[i..];
    if i == |ids| {
      CopiesAdd(now, 0, 0);
      assert calls == [] && ids[..i] == ids;
    } else {
      var c, rest := Call(now, 1, ids[i]), OneEach(ids, now)[i + 1..];
      assert calls == [c] + rest && ids[..i] + [ids[i]] == ids[..i + 1];
      NamesCount(ids[..i], now);
      CollidingStep(limit, window, ids[..i], ids[i], now);
      AdmissionsStep(limit, window, KeyOf(ids[..i], window, now), c, rest);
      AllAdmitted(limit, window, ids, i + 1, now);
      CopiesAdd(now, 1, |ids| - i - 1);
    }
  }

  lemma CopiesAdd(t: int, a: nat, b: nat)
    ensures Copies(t, a) + Copies(t, b) == Copies(t, a + b) && Copies(t, 0) == []
  {
  }

  /** After as many calls at one instant as the limit, one more is admitted if and only if
      two of them shared an id. */
  lemma OneInstantIff(limit: int, window: int, ids: seq<string>, last: string, now: int)
    requires window > 0 && |ids| == limit > 0
    ensures var calls := OneEach(ids, now);
            && InWindow(Admissions(limit, window, EMPTY, calls), window, now) == limit
            && (Admits(limit, window, Final(limit, window, EMPTY, calls), 1, now) <==> !Distinct(ids))
  {
    hide Accounts, InWindow, Admissions, Lost, Final, Admits, Kept, Copies, Names, Distinct;
    var calls := OneEach(ids, now);
    AllAdmitted(limit, window, ids, 0, now);
    assert ids[..0] == [] && calls[0..] == calls && KeyOf([], window, now) == EMPTY by { NoNames(now); }
    InWindowCopies(now, limit, window, now);
    AtOneInstant(ids, now);
    OverAdmitsIff(limit, window, calls, now, Call(now, 1, last));
    LostOfOneInstant(limit, window, ids, now);
    NamesCount(ids, now);
  }

  lemma NoNames(now: int)
    ensures Names([], now) == map[]
  {
  }

  /** What is lost is one for each id given before. */
  lemma LostOfOneInstant(limit: int, window: int, ids: seq<string>, now: int)
    requires window > 0 && |ids| == limit > 0
    ensures InWindow(Lost(limit, window, EMPTY, OneEach(ids, now)), window, now) == limit - |Names(ids, now)|
  {
    hide Kept, CountIn, Lost, Final, Admissions, Names, Copies, Outlives, AtMost, Ordered;
    var calls, lost := OneEach(ids, now), Lost(limit, window, EMPTY, OneEach(ids, now));
    AllAdmitted(limit, window, ids, 0, now);
    NoNames(now);
    assert ids[..0] == [] && calls[0..] == calls;
    EmptyAccounts(window, now);
    AtOneInstant(ids, now);
    AccountsRun(limit, window, EMPTY, [], [], calls, now);
    NamesKept(ids, window, now);
    var none: seq<int> := [];
    assert none + lost == lost && none + Copies(now, limit) == Copies(now, limit);
    InWindowCopies(now, limit, window, now);
  }

  lemma AtOneInstant(ids: seq<string>, now: int)
    ensures Ordered(OneEach(ids, now), now) && End(OneEach(ids, now), now) == now
  {
  }

  lemma NamesKept(ids: seq<string>, window: int, now: int)
    requires window > 0
    ensures Kept(Names(ids, now), now - window) == Names(ids, now)
  {
    NamesAre(ids, now);
  }
}
