/** Limiters chained: the tiered limiter and the composite limiter. Every limiter of
    a chain keeps one meter per key; a chain works on the table of all of them, so
    two tiers may or may not share a meter. One call happens at one clock instant. */
module Chains {
  import opened Ratelimit
  import opened Arith
  import opened Meters

  /** One meter: a limiter, by number, and a key. */
  datatype Slot = Slot(limiter: nat, key: string)

  /** The meters of all keys seen so far, and each limiter's configuration. */
  datatype Table = Table(limiters: seq<Meter>, meters: map<Slot, Meter>)

  predicate Sound(t: Table) {
    && (forall i | 0 <= i < |t.limiters| :: Configured(t.limiters[i]))
    && (forall s | s in t.meters :: Configured(t.meters[s]))
  }

  ghost predicate Consistent(t: Table, now: int) {
    && Sound(t)
    && (forall i | 0 <= i < |t.limiters| :: Valid(t.limiters[i], now))
    && (forall s | s in t.meters :: Valid(t.meters[s], now))
  }

  /** A limiter's meter for a key it has not seen is fresh. */
  function View(t: Table, s: Slot, now: int): (m: Meter)
    requires Sound(t) && s.limiter < |t.limiters|
    ensures Configured(m)
  {
    if s in t.meters then t.meters[s] else Fresh(t.limiters[s.limiter], now)
  }

  ghost predicate InRange(t: Table, slots: seq<Slot>) {
    forall i | 0 <= i < |slots| :: slots[i].limiter < |t.limiters|
  }

  lemma ViewValid(t: Table, s: Slot, now: int)
    requires Consistent(t, now) && s.limiter < |t.limiters|
    ensures Valid(View(t, s, now), now)
  {
    ValidAfter(t.limiters[s.limiter], 0, now);
  }

  /** `AllowN(n)`, `times` times over, at one instant. */
  function Debit(m: Meter, n: int, now: int, times: nat): (m': Meter)
    requires Configured(m)
    ensures Configured(m')
  {
    if times == 0 then m else After(Debit(m, n, now, times - 1), n, now)
  }

  /** What `times` debits of `n` need, and what they leave. */
  lemma {:induction false} DebitLaw(m: Meter, n: int, now: int, times: nat)
    requires Valid(m, now) && n >= 1 && n * times <= Remaining(m, now)
    ensures Valid(Debit(m, n, now, times), now)
    ensures Remaining(Debit(m, n, now, times), now) == Remaining(m, now) - n * times
    ensures Admits(Debit(m, n, now, times), n, now) <==> n * (times + 1) <= Remaining(m, now)
  {
    MulDistrib(n, times, 1);
    if times > 0 {
      MulDistrib(n, times - 1, 1);
      DebitLaw(m, n, now, times - 1);
      ValidAfter(Debit(m, n, now, times - 1), n, now);
      PeekAllowLaw(Debit(m, n, now, times - 1), n, now);
    }
    PeekAllowLaw(Debit(m, n, now, times), n, now);
  }

  function Count(slots: seq<Slot>, s: Slot): nat {
    if slots == [] then 0 else Count(slots[..|slots| - 1], s) + if slots[|slots| - 1] == s then 1 else 0
  }

  /** The new table shows, for every meter, exactly its debits among `slots`. */
  ghost predicate Debited(t: Table, t': Table, slots: seq<Slot>, n: int, now: int) {
    && Sound(t) && Sound(t') && t.limiters == t'.limiters
    && forall s: Slot | s.limiter < |t.limiters| ::
         Same(View(t', s, now), Debit(View(t, s, now), n, now, Count(slots, s)), now)
  }

  /** The number of tiers a chain of these slots debits: none if some `Peek` falls
      short, else those before the first that denies. */
  function Committed(t: Table, slots: seq<Slot>, n: int, now: int): nat
    requires Sound(t) && InRange(t, slots)
  {
    if Covers(t, slots, n, now) then FirstUnfit(t, slots, 0, n, now) else 0
  }

  /** Every tier's `Peek` covers the request. */
  predicate Covers(t: Table, slots: seq<Slot>, n: int, now: int)
    requires Sound(t) && InRange(t, slots)
  {
    forall i | 0 <= i < |slots| :: Remaining(View(t, slots[i], now), now) >= n
  }

  /** A tier's own `AllowN` succeeds after the debits of the tiers before it. */
  predicate Fits(t: Table, slots: seq<Slot>, i: nat, n: int, now: int)
    requires Sound(t) && InRange(t, slots) && i < |slots|
  {
    ValidKey(slots[i].key) && n >= 1 && n * (Count(slots[..i], slots[i]) + 1) <= Remaining(View(t, slots[i], now), now)
  }

  function FirstUnfit(t: Table, slots: seq<Slot>, i: nat, n: int, now: int): (k: nat)
    requires Sound(t) && InRange(t, slots) && i <= |slots|
    ensures i <= k <= |slots|
    ensures forall j | i <= j < k :: Fits(t, slots, j, n, now)
    ensures k < |slots| ==> !Fits(t, slots, k, n, now)
    decreases |slots| - i
  {
    if i == |slots| || !Fits(t, slots, i, n, now) then i else FirstUnfit(t, slots, i + 1, n, now)
  }

  /** The first limiter that would admit the request by itself. */
  function FirstAble(t: Table, slots: seq<Slot>, i: nat, n: int, now: int): (k: nat)
    requires Sound(t) && InRange(t, slots) && i <= |slots|
    ensures i <= k <= |slots|
    ensures forall j | i <= j < k :: !(ValidKey(slots[j].key) && Admits(View(t, slots[j], now), n, now))
    ensures k < |slots| ==> ValidKey(slots[k].key) && Admits(View(t, slots[k], now), n, now)
    decreases |slots| - i
  {
    if i == |slots| || (ValidKey(slots[i].key) && Admits(View(t, slots[i], now), n, now)) then i
    else FirstAble(t, slots, i + 1, n, now)
  }

  /** One level of a hierarchy: the limiter and how it derives its key. */
  datatype Tier = Tier(keyFunc: string -> string, limiter: nat)

  function Slots(tiers: seq<Tier>, key: string): seq<Slot> {
    seq(|tiers|, i requires 0 <= i < |tiers| => Slot(tiers[i].limiter, tiers[i].keyFunc(key)))
  }

  function TieredCommits(t: Table, tiers: seq<Tier>, key: string, n: int, now: int): nat
    requires Sound(t) && InRange(t, Slots(tiers, key))
  {
    if ValidKey(key) && n >= 1 then Committed(t, Slots(tiers, key), n, now) else 0
  }

  class Limiters {
    var table: Table

    constructor (limiters: seq<Meter>)
      requires forall i | 0 <= i < |limiters| :: Configured(limiters[i])
      ensures table == Table(limiters, map[]) && Sound(table)
    {
      table := Table(limiters, map[]);
    }

    method Peek(s: Slot, now: int) returns (remaining: int)
      requires Consistent(table, now) && s.limiter < |table.limiters|
      modifies this
      ensures remaining == Remaining(View(old(table), s, now), now)
      ensures Consistent(table, now) && Debited(old(table), table, [], 0, now)
    {
      hide Same, Valid, Configured;
      ViewValid(table, s, now);
      var m := View(table, s, now);
      remaining := Remaining(m, now);
      ValidAfter(m, 0, now);
      ValidConfigured(Peeked(m, now), now);
      QuietSymmetric(m, 0, now);
      table := table.(meters := table.meters[s := Peeked(m, now)]);
      forall r: Slot | r.limiter < |table.limiters|
        ensures Same(View(table, r, now), View(old(table), r, now), now)
      {
        SameReflexive(View(old(table), r, now), now);
      }
    }

    /** One limiter's own `AllowN`. */
    method Allow(s: Slot, n: int, now: int) returns (allowed: bool)
      requires Consistent(table, now) && s.limiter < |table.limiters|
      modifies this
      ensures allowed == (ValidKey(s.key) && Admits(View(old(table), s, now), n, now))
      ensures Consistent(table, now) && Debited(old(table), table, if allowed then [s] else [], n, now)
    {
      hide Same, Valid, Admits, After, Configured;
      ViewValid(table, s, now);
      var m := View(table, s, now);
      forall r: Slot | r.limiter < |table.limiters|
        ensures Same(View(table, r, now), View(table, r, now), now)
      {
        SameReflexive(View(table, r, now), now);
      }
      if !ValidKey(s.key) {
        return false;
      }
      allowed := Admits(m, n, now);
      ValidAfter(m, n, now);
      ValidConfigured(After(m, n, now), now);
      SameReflexive(After(m, n, now), now);
      QuietSymmetric(m, n, now);
      table := table.(meters := table.meters[s := After(m, n, now)]);
      forall r: Slot | r.limiter < |table.limiters|
        ensures Same(View(table, r, now), Debit(View(old(table), r, now), n, now, Count(if allowed then [s] else [], r)), now)
      {
        assert [s][..0] == [];
        assert Debit(m, n, now, 1) == After(m, n, now);
      }
    }

    /** Phase 2 of a chain: debit the slots in order until one denies. `before` is
        the table the call found; since then there were only peeks. No limiter can
        be credited, so the rollback of a commit that fails half-way is empty. */
    method Commit(slots: seq<Slot>, n: int, now: int, ghost before: Table) returns (allowed: bool, denied: nat)
      requires Consistent(before, now) && Consistent(table, now) && Debited(before, table, [], n, now)
      requires InRange(before, slots)
      modifies this
      ensures Consistent(table, now)
      ensures allowed <==> FirstUnfit(before, slots, 0, n, now) == |slots|
      ensures !allowed ==> denied == FirstUnfit(before, slots, 0, n, now)
      ensures Debited(before, table, slots[..FirstUnfit(before, slots, 0, n, now)], n, now)
    {
      hide Same, Valid, Admits, After, Configured, Remaining;
      ghost var k := FirstUnfit(before, slots, 0, n, now);
      var i := 0;
      assert slots[..0] == [];
      while i < |slots|
        invariant 0 <= i <= |slots| && k == FirstUnfit(before, slots, i, n, now)
        invariant Consistent(table, now) && Debited(before, table, slots[..i], n, now)
        invariant forall j | 0 <= j < i :: Fits(before, slots, j, n, now)
      {
        ghost var at := table;
        AdmitsIffFits(before, table, slots, i, n, now);
        var ok := Allow(slots[i], n, now);
        if !ok {
          QuietCompose(before, at, table, slots[..i], n, now);
          return false, i;
        }
        DebitCompose(before, at, table, slots[..i], slots[i], n, now);
        assert slots[..i + 1] == slots[..i] + [slots[i]];
        i := i + 1;
      }
      assert slots[..|slots|] == slots;
      return true, 0;
    }

    /** The tiered limiter: peek tier by tier and stop at the first that falls
        short, else commit to all. `denied` names the tier that caused a denial. */
    method TieredAllowN(tiers: seq<Tier>, key: string, n: int, now: int) returns (allowed: bool, denied: nat)
      requires Consistent(table, now) && InRange(table, Slots(tiers, key))
      modifies this
      ensures Consistent(table, now)
      ensures allowed <==> TieredCommits(old(table), tiers, key, n, now) == |tiers| > 0
      ensures Debited(old(table), table, Slots(tiers, key)[..TieredCommits(old(table), tiers, key, n, now)], n, now)
      ensures !ValidKey(key) || n < 1 || tiers == [] ==> !allowed && Debited(old(table), table, [], n, now)
      ensures !allowed && ValidKey(key) && n >= 1 && tiers != [] ==>
        && denied < |tiers| && !Fits(old(table), Slots(tiers, key), denied, n, now)
        && forall j | 0 <= j < denied :: Remaining(View(old(table), Slots(tiers, key)[j], now), now) >= n
      ensures Separate(Slots(tiers, key)) && ValidKey(key) && tiers != [] ==>
        && (allowed <==> forall i | 0 <= i < |tiers| :: Admits(View(old(table), Slots(tiers, key)[i], now), n, now))
        && Debited(old(table), table, if allowed then Slots(tiers, key) else [], n, now)
    {
      hide Same, Valid, Admits, After, Configured, Remaining, Separate;
      Unchanged(table, n, now);
      TieredAllOrNothing(table, tiers, key, n, now);
      ghost var all := Slots(tiers, key);
      assert all[..0] == [];
      if !ValidKey(key) || n < 1 || |tiers| == 0 {
        return false, 0;
      }
      var slots: seq<Slot> := [];
      while |slots| < |tiers|
        invariant |slots| <= |tiers| && slots == all[..|slots|]
        invariant Consistent(table, now) && Debited(old(table), table, [], n, now)
        invariant forall j | 0 <= j < |slots| :: Remaining(View(old(table), all[j], now), now) >= n
      {
        var i := |slots|;
        slots := slots + [Slot(tiers[i].limiter, tiers[i].keyFunc(key))];
        ghost var at := table;
        SameRemaining(old(table), table, all[i], n, now);
        var remaining := Peek(slots[i], now);
        QuietCompose(old(table), at, table, [], n, now);
        if remaining < n {
          at := table;
          assert !Covers(old(table), all, n, now);
          LackingDenies(old(table), table, all, i, n, now);
          var retried := Allow(slots[i], n, now);
          QuietCompose(old(table), at, table, [], n, now);
          return false, i;
        }
      }
      assert slots == all && Covers(old(table), all, n, now);
      allowed, denied := Commit(slots, n, now, old(table));
    }

    /** The composite limiter in AND mode: peek all, and if any falls short ask only
        those that do, else commit to all. */
    method AllowAnd(slots: seq<Slot>, n: int, now: int) returns (allowed: bool)
      requires Consistent(table, now) && InRange(table, slots)
      modifies this
      ensures Consistent(table, now)
      ensures allowed <==> Committed(old(table), slots, n, now) == |slots| > 0
      ensures Debited(old(table), table, slots[..Committed(old(table), slots, n, now)], n, now)
    {
      hide Same, Valid, Admits, After, Configured, Remaining;
      Unchanged(table, n, now);
      assert slots[..0] == [];
      if |slots| == 0 {
        return false;
      }
      var peeks: seq<int>, short := [], false;
      while |peeks| < |slots|
        invariant |peeks| <= |slots|
        invariant Consistent(table, now) && Debited(old(table), table, [], n, now)
        invariant forall j | 0 <= j < |peeks| :: peeks[j] == Remaining(View(old(table), slots[j], now), now)
        invariant short <==> exists j | 0 <= j < |peeks| :: peeks[j] < n
      {
        ghost var at := table;
        SameRemaining(old(table), table, slots[|peeks|], n, now);
        var remaining := Peek(slots[|peeks|], now);
        QuietCompose(old(table), at, table, [], n, now);
        peeks := peeks + [remaining];
        short := short || remaining < n;
      }
      if !short {
        var denied;
        allowed, denied := Commit(slots, n, now, old(table));
        return;
      }
      allowed := false;
      for i := 0 to |slots|
        invariant Consistent(table, now) && Debited(old(table), table, [], n, now)
      {
        if peeks[i] < n {
          ghost var at := table;
          LackingDenies(old(table), table, slots, i, n, now);
          var retried := Allow(slots[i], n, now);
          QuietCompose(old(table), at, table, [], n, now);
        }
      }
    }

    /** The composite limiter in OR mode: the first limiter able to admit does. */
    method AllowOr(slots: seq<Slot>, n: int, now: int) returns (allowed: bool)
      requires Consistent(table, now) && InRange(table, slots)
      modifies this
      ensures Consistent(table, now)
      ensures allowed <==> FirstAble(old(table), slots, 0, n, now) < |slots|
      ensures Debited(old(table), table,
                      if allowed then [slots[FirstAble(old(table), slots, 0, n, now)]] else [], n, now)
    {
      hide Same, Valid, Admits, After, Configured, Remaining;
      Unchanged(table, n, now);
      for i := 0 to |slots|
        invariant Consistent(table, now) && Debited(old(table), table, [], n, now)
        invariant FirstAble(old(table), slots, 0, n, now) == FirstAble(old(table), slots, i, n, now)
      {
        ghost var at := table;
        SameRemaining(old(table), table, slots[i], n, now);
        allowed := Allow(slots[i], n, now);
        if allowed {
          DebitCompose(old(table), at, table, [], slots[i], n, now);
          assert [] + [slots[i]] == [slots[i]];
          return;
        }
        QuietCompose(old(table), at, table, [], n, now);
      }
      allowed := false;
    }
  }

  lemma Unchanged(t: Table, n: int, now: int)
    requires Sound(t)
    ensures Debited(t, t, [], n, now)
  {
    forall s: Slot | s.limiter < |t.limiters|
      ensures Same(View(t, s, now), View(t, s, now), now)
    {
      SameReflexive(View(t, s, now), now);
    }
  }

  lemma QuietSymmetric(m: Meter, n: int, now: int)
    requires Valid(m, now)
    ensures !Admits(m, n, now) ==> Same(After(m, n, now), m, now)
    ensures Same(Peeked(m, now), m, now)
  {
    QuietStep(m, n, now);
  }

  lemma {:induction false} DebitValid(m: Meter, n: int, now: int, times: nat)
    requires Valid(m, now)
    ensures Valid(Debit(m, n, now, times), now)
  {
    if times > 0 {
      DebitValid(m, n, now, times - 1);
      ValidAfter(Debit(m, n, now, times - 1), n, now);
    }
  }

  lemma SameRemaining(t: Table, t': Table, s: Slot, n: int, now: int)
    requires Consistent(t, now) && Consistent(t', now) && Debited(t, t', [], n, now) && s.limiter < |t.limiters|
    ensures Remaining(View(t', s, now), now) == Remaining(View(t, s, now), now)
    ensures Admits(View(t', s, now), n, now) == Admits(View(t, s, now), n, now)
  {
    ViewValid(t, s, now);
    ViewValid(t', s, now);
    SameStep(View(t', s, now), View(t, s, now), n, now);
  }

  lemma QuietCompose(t0: Table, t1: Table, t2: Table, slots: seq<Slot>, n: int, now: int)
    requires Debited(t0, t1, slots, n, now) && (Debited(t1, t2, [], n, now) || Debited(t1, t2, [], 0, now))
    ensures Debited(t0, t2, slots, n, now)
  {
    hide Same, Valid, Admits, After, Configured, Remaining;
    forall s: Slot | s.limiter < |t0.limiters|
      ensures Same(View(t2, s, now), Debit(View(t0, s, now), n, now, Count(slots, s)), now)
    {
      var target := Debit(View(t0, s, now), n, now, Count(slots, s));
      assert Same(View(t1, s, now), target, now);
      assert Count([], s) == 0;
      SameTransitive(View(t2, s, now), View(t1, s, now), target, now);
    }
  }

  lemma DebitCompose(t0: Table, t1: Table, t2: Table, slots: seq<Slot>, added: Slot, n: int, now: int)
    requires Consistent(t0, now) && Consistent(t1, now)
    requires Debited(t0, t1, slots, n, now) && Debited(t1, t2, [added], n, now)
    ensures Debited(t0, t2, slots + [added], n, now)
  {
    hide Same, Valid, Admits, After, Configured, Remaining;
    forall s: Slot | s.limiter < |t0.limiters|
      ensures Same(View(t2, s, now), Debit(View(t0, s, now), n, now, Count(slots + [added], s)), now)
    {
      var target := Debit(View(t0, s, now), n, now, Count(slots, s));
      assert Same(View(t1, s, now), target, now);
      assert (slots + [added])[..|slots|] == slots && [added][..0] == [];
      ViewValid(t0, s, now);
      ViewValid(t1, s, now);
      DebitValid(View(t0, s, now), n, now, Count(slots, s));
      SameStep(View(t1, s, now), target, n, now);
      assert Same(View(t2, s, now), Debit(View(t1, s, now), n, now, Count([added], s)), now);
      if s == added {
        assert Count([added], s) == Count([], s) + 1;
        assert Debit(View(t1, s, now), n, now, 1) == After(Debit(View(t1, s, now), n, now, 0), n, now);
        ValidAfter(target, n, now);
        ValidConfigured(After(target, n, now), now);
        SameTransitive(View(t2, s, now), After(View(t1, s, now), n, now), After(target, n, now), now);
      } else {
        SameTransitive(View(t2, s, now), View(t1, s, now), target, now);
      }
    }
  }

  lemma LackingDenies(t: Table, t': Table, slots: seq<Slot>, i: nat, n: int, now: int)
    requires Consistent(t, now) && Consistent(t', now) && InRange(t, slots) && i < |slots|
    requires Debited(t, t', [], n, now) && Remaining(View(t, slots[i], now), now) < n
    ensures !Admits(View(t', slots[i], now), n, now) && !Fits(t, slots, i, n, now)
  {
    SameRemaining(t, t', slots[i], n, now);
    ViewValid(t, slots[i], now);
    PeekAllowLaw(View(t, slots[i], now), Max(n, 1), now);
    if n >= 1 {
      MulMono(n, 1, Count(slots[..i], slots[i]) + 1);
    }
  }

  /** With the tiers before it debited, a tier admits exactly if it fits. */
  lemma AdmitsIffFits(t: Table, t': Table, slots: seq<Slot>, i: nat, n: int, now: int)
    requires Consistent(t, now) && Consistent(t', now) && InRange(t, slots) && i < |slots|
    requires Debited(t, t', slots[..i], n, now)
    requires forall j | 0 <= j < i :: Fits(t, slots, j, n, now)
    ensures (ValidKey(slots[i].key) && Admits(View(t', slots[i], now), n, now)) <==> Fits(t, slots, i, n, now)
  {
    var s := slots[i];
    var k := Count(slots[..i], s);
    var m := View(t, s, now);
    ViewValid(t, s, now);
    ViewValid(t', s, now);
    DebitValid(m, n, now, k);
    SameStep(View(t', s, now), Debit(m, n, now, k), n, now);
    if n >= 1 {
      PriorDebitsFit(t, slots, i, s, n, now);
      DebitLaw(m, n, now, k);
    } else {
      NoneAdmitted(Debit(m, n, now, k), n, now);
    }
  }

  lemma NoneAdmitted(m: Meter, n: int, now: int)
    requires Configured(m) && n < 1
    ensures !Admits(m, n, now)
  {
  }

  /** If the first `i` tiers fit, their debits of any one meter fit together. */
  lemma {:induction false} PriorDebitsFit(t: Table, slots: seq<Slot>, i: nat, s: Slot, n: int, now: int)
    requires Consistent(t, now) && InRange(t, slots) && i <= |slots| && n >= 1 && s.limiter < |t.limiters|
    requires forall j | 0 <= j < i :: Fits(t, slots, j, n, now)
    ensures n * Count(slots[..i], s) <= Remaining(View(t, s, now), now)
  {
    ViewValid(t, s, now);
    PeekAllowLaw(View(t, s, now), n, now);
    if i > 0 {
      assert slots[..i][..i - 1] == slots[..i - 1];
      PriorDebitsFit(t, slots, i - 1, s, n, now);
      assert Fits(t, slots, i - 1, n, now);
    }
  }

  // All-or-nothing

  /** Tiers that keep their meters apart and derive valid keys. */
  ghost predicate Separate(slots: seq<Slot>) {
    && (forall i, j | 0 <= i < j < |slots| :: slots[i] != slots[j])
    && (forall i | 0 <= i < |slots| :: ValidKey(slots[i].key))
  }

  lemma {:induction false} CountAbsent(slots: seq<Slot>, s: Slot)
    requires forall i | 0 <= i < |slots| :: slots[i] != s
    ensures Count(slots, s) == 0
  {
    if slots != [] {
      CountAbsent(slots[..|slots| - 1], s);
    }
  }

  lemma {:induction false} CountOnce(slots: seq<Slot>, i: nat)
    requires i < |slots| && forall j, k | 0 <= j < k < |slots| :: slots[j] != slots[k]
    ensures Count(slots, slots[i]) == 1 && Count(slots[..i], slots[i]) == 0
  {
    CountAbsent(slots[..i], slots[i]);
    if i == |slots| - 1 {
      CountAbsent(slots[..|slots| - 1], slots[i]);
    } else {
      CountOnce(slots[..|slots| - 1], i);
    }
  }

  /** A chain of separate tiers is all-or-nothing: it debits every tier once if
      every tier alone would admit the request, and otherwise none. */
  lemma AllOrNothing(t: Table, slots: seq<Slot>, n: int, now: int)
    requires Consistent(t, now) && InRange(t, slots) && Separate(slots)
    ensures Committed(t, slots, n, now) ==
      if forall i | 0 <= i < |slots| :: Admits(View(t, slots[i], now), n, now) then |slots| else 0
    ensures forall i | 0 <= i < |slots| :: Count(slots, slots[i]) == 1
  {
    hide Same, Valid, Admits, After, Configured, Remaining, Fits;
    forall i | 0 <= i < |slots|
      ensures Count(slots, slots[i]) == 1
      ensures Fits(t, slots, i, n, now) <==> Admits(View(t, slots[i], now), n, now)
      ensures Admits(View(t, slots[i], now), n, now) ==> Remaining(View(t, slots[i], now), now) >= n
      ensures n >= 1 && Remaining(View(t, slots[i], now), now) >= n ==> Admits(View(t, slots[i], now), n, now)
    {
      CountOnce(slots, i);
      FitsAlone(t, slots, i, n, now);
    }
    if n < 1 && slots != [] {
      ViewValid(t, slots[0], now);
      ValidConfigured(View(t, slots[0], now), now);
      NoneAdmitted(View(t, slots[0], now), n, now);
    }
  }

  lemma TieredAllOrNothing(t: Table, tiers: seq<Tier>, key: string, n: int, now: int)
    requires Consistent(t, now) && InRange(t, Slots(tiers, key))
    ensures Separate(Slots(tiers, key)) && ValidKey(key) && tiers != [] ==>
      TieredCommits(t, tiers, key, n, now) ==
      if forall i | 0 <= i < |tiers| :: Admits(View(t, Slots(tiers, key)[i], now), n, now) then |tiers| else 0
    ensures Slots(tiers, key)[..|tiers|] == Slots(tiers, key) && Slots(tiers, key)[..0] == []
  {
    hide Same, Valid, Admits, After, Configured, Remaining, Fits;
    var slots := Slots(tiers, key);
    if Separate(slots) && ValidKey(key) && tiers != [] {
      AllOrNothing(t, slots, n, now);
      if n < 1 {
        ViewValid(t, slots[0], now);
        ValidConfigured(View(t, slots[0], now), now);
        NoneAdmitted(View(t, slots[0], now), n, now);
      }
    }
  }

  lemma FitsAlone(t: Table, slots: seq<Slot>, i: nat, n: int, now: int)
    requires Consistent(t, now) && InRange(t, slots) && i < |slots|
    requires ValidKey(slots[i].key) && Count(slots[..i], slots[i]) == 0
    ensures Fits(t, slots, i, n, now) <==> Admits(View(t, slots[i], now), n, now)
    ensures Admits(View(t, slots[i], now), n, now) ==> Remaining(View(t, slots[i], now), now) >= n
    ensures n >= 1 && Remaining(View(t, slots[i], now), now) >= n ==> Admits(View(t, slots[i], now), n, now)
  {
    ViewValid(t, slots[i], now);
    var m := View(t, slots[i], now);
    hide Valid, After, Remaining, Admits, Configured;
    if n >= 1 {
      PeekAllowLaw(m, n, now);
    } else {
      NoneAdmitted(m, n, now);
    }
  }

  /** In general a chain debits some tiers but not all exactly when every `Peek`
      covers the request, the first tier's key is valid, and a later tier does not
      fit: its key is invalid, or it shares a meter that cannot pay for all the
      tiers sharing it. */
  lemma PartialDebitIff(t: Table, slots: seq<Slot>, n: int, now: int)
    requires Sound(t) && InRange(t, slots) && slots != [] && n >= 1
    ensures 0 < Committed(t, slots, n, now) < |slots| <==>
      && Covers(t, slots, n, now)
      && ValidKey(slots[0].key)
      && exists i | 0 < i < |slots| :: !Fits(t, slots, i, n, now)
  {
    hide Remaining, Configured;
    assert Count(slots[..0], slots[0]) == 0;
    assert n * (0 + 1) == n;
    assert Covers(t, slots, n, now) ==> (Fits(t, slots, 0, n, now) <==> ValidKey(slots[0].key));
    hide Fits;
    var k := FirstUnfit(t, slots, 0, n, now);
    assert k < |slots| ==> !Fits(t, slots, k, n, now);
  }

  /** `Prefix(sep)`: the part of the key before the first separator, or all of it. */
  function Prefix(sep: string, key: string): (prefix: string)
    ensures prefix <= key && (prefix == key || sep <= key[|prefix|..])
    ensures forall i | 0 <= i < |prefix| :: !(sep <= key[i..])
  {
    if sep <= key then []
    else if key == [] then []
    else
      var rest := Prefix(sep, key[1..]);
      assert forall i | 1 <= i <= |key| :: key[i..] == key[1..][i - 1..];
      [key[0]] + rest
  }

  lemma EmptyTenant()
    ensures Prefix(":", ":alice") == "" && ValidKey(":alice") && !ValidKey("")
  {
    assert ":" <= ":alice";
  }

  /** The documented user-and-tenant hierarchy leaks: the key ":alice" is valid, its
      tenant key is empty, `Peek` does not validate it and `AllowN` does. The user
      tier is debited and the call denied. */
  lemma InvalidTenantKeyLeaks(m: Meter, now: int)
    requires Valid(m, now) && Remaining(Fresh(m, now), now) >= 1
    ensures var t := Table([m, m], map[]);
            var tiers := [Tier((key: string) => key, 0), Tier((key: string) => Prefix(":", key), 1)];
            && ValidKey(":alice") && Consistent(t, now) && InRange(t, Slots(tiers, ":alice"))
            && TieredCommits(t, tiers, ":alice", 1, now) == 1 < |tiers|
  {
    var t := Table([m, m], map[]);
    var tiers := [Tier((key: string) => key, 0), Tier((key: string) => Prefix(":", key), 1)];
    var slots := Slots(tiers, ":alice");
    ViewValid(t, slots[0], now);
    ViewValid(t, slots[1], now);
    EmptyTenant();
    hide Valid, After, Remaining, Admits, Configured, Prefix;
    assert slots == [Slot(0, ":alice"), Slot(1, "")];
    assert slots[..0] == [];
    assert Fits(t, slots, 0, 1, now);
    assert !Fits(t, slots, 1, 1, now);
    assert Covers(t, slots, 1, now);
    assert FirstUnfit(t, slots, 1, 1, now) == 1;
  }

  /** A meter with room for one, listed twice, is debited by a denied call. */
  lemma SharedMeterLeaks(m: Meter, key: string, now: int)
    requires Valid(m, now) && Remaining(Fresh(m, now), now) == 1 && ValidKey(key)
    ensures var t, slots := Table([m], map[]), [Slot(0, key), Slot(0, key)];
            Consistent(t, now) && InRange(t, slots) && Committed(t, slots, 1, now) == 1
  {
    var t, slots := Table([m], map[]), [Slot(0, key), Slot(0, key)];
    assert slots[..0] == [] && slots[..1] == [Slot(0, key)] && [Slot(0, key)][..0] == [];
    assert Count([], slots[0]) == 0 && Count(slots[..1], slots[1]) == 1;
    assert Fits(t, slots, 0, 1, now);
    assert !Fits(t, slots, 1, 1, now);
    assert Covers(t, slots, 1, now);
    assert FirstUnfit(t, slots, 1, 1, now) == 1;
  }

  /** A composite asks distinct limiters about one key. It is all-or-nothing for
      every key and every count, valid or not. */
  lemma CompositeAllOrNothing(t: Table, slots: seq<Slot>, key: string, n: int, now: int)
    requires Consistent(t, now) && InRange(t, slots) && slots != []
    requires forall i | 0 <= i < |slots| :: slots[i].key == key
    requires forall i, j | 0 <= i < j < |slots| :: slots[i] != slots[j]
    ensures Committed(t, slots, n, now) ==
      if ValidKey(key) && (forall i | 0 <= i < |slots| :: Admits(View(t, slots[i], now), n, now)) then |slots| else 0
  {
    if ValidKey(key) {
      AllOrNothing(t, slots, n, now);
    }
  }
}
