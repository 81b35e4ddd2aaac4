/** The circuit breaker whose state is one shared record: what its three atomic
    scripts decide and write, and the record as text. */
module SharedBreaker {
  import opened Ratelimit
  import opened Decimal
  import opened Records

  const CLOSED := 0
  const HALF_OPEN := 1
  const OPEN := 2

  datatype Config = Config(openTimeout: int, halfOpenMax: int, failureThreshold: int, successThreshold: int)

  /** Unset thresholds are defaulted to positive values. */
  predicate ValidConfig(c: Config) {
    && 0 < c.openTimeout
    && 1 <= c.halfOpenMax <= INT64_MAX && 1 <= c.failureThreshold <= INT64_MAX && 1 <= c.successThreshold <= INT64_MAX
  }

  datatype Cb = Cb(state: int, failures: int, successes: int, openedAt: int, inflight: int)

  /** The record of a key that does not exist. */
  const ZERO := Cb(0, 0, 0, 0, 0)

  datatype Decision = AllowClosed | AllowProbe | RejectOpen(openedAt: int) | RejectProbe

  predicate TimedOut(c: Config, st: Cb, now: int) {
    st.openedAt > 0 && now - st.openedAt >= c.openTimeout
  }

  /** The record after the lazy promotion from open to half-open. */
  function Promoted(c: Config, st: Cb, now: int): Cb {
    if st.state == OPEN && TimedOut(c, st, now) then st.(state := HALF_OPEN, successes := 0, inflight := 0) else st
  }

  function Decide(c: Config, st: Cb, now: int): Decision {
    var p := Promoted(c, st, now);
    if p.state == OPEN then RejectOpen(p.openedAt)
    else if p.state != HALF_OPEN then AllowClosed
    else if p.inflight >= c.halfOpenMax then RejectProbe
    else AllowProbe
  }

  function Acquired(c: Config, st: Cb, now: int): Cb {
    var p := Promoted(c, st, now);
    if Decide(c, st, now).AllowProbe? then p.(inflight := p.inflight + 1) else p
  }

  function Tripped(now: int): Cb {
    Cb(OPEN, 0, 0, now, 0)
  }

  /** One outcome recorded; `probe` says that the call had reserved a slot. */
  function Recorded(c: Config, st: Cb, failed: bool, probe: bool, now: int): Cb {
    var s := if probe && st.inflight > 0 then st.(inflight := st.inflight - 1) else st;
    if s.state == HALF_OPEN then
      if failed then Tripped(now)
      else if s.successes + 1 >= c.successThreshold then ZERO
      else s.(successes := s.successes + 1)
    else if s.state == CLOSED && failed then
      if s.failures + 1 >= c.failureThreshold then Tripped(now) else s.(failures := s.failures + 1)
    else s
  }

  function Reported(c: Config, st: Cb, now: int): Cb {
    if st.state == OPEN && TimedOut(c, st, now) then st.(state := HALF_OPEN) else st
  }

  /** What the fields of a reachable record satisfy. */
  predicate Wellformed(c: Config, st: Cb) {
    && CLOSED <= st.state <= OPEN
    && 0 <= st.failures < c.failureThreshold && (st.failures > 0 ==> st.state == CLOSED)
    && 0 <= st.successes < c.successThreshold && (st.successes > 0 ==> st.state == HALF_OPEN)
    && 0 <= st.inflight <= c.halfOpenMax && (st.inflight > 0 ==> st.state == HALF_OPEN)
    && (if st.state == CLOSED then st.openedAt == 0 else 0 < st.openedAt <= INT64_MAX)
  }

  lemma WellformedKept(c: Config, st: Cb, failed: bool, probe: bool, now: int)
    requires ValidConfig(c) && Wellformed(c, st) && 0 < now <= INT64_MAX
    ensures Wellformed(c, ZERO) && Wellformed(c, Acquired(c, st, now)) && Wellformed(c, Recorded(c, st, failed, probe, now))
  {
  }

  /** `Read` reports exactly the state the next `Acquire` at that instant acts in. */
  lemma ReadPredictsAcquire(c: Config, st: Cb, now: int)
    requires ValidConfig(c) && Wellformed(c, st)
    ensures Reported(c, st, now).state == Promoted(c, st, now).state
    ensures Reported(c, st, now).(state := st.state) == st
    ensures Reported(c, st, now).state == OPEN <==> Decide(c, st, now).RejectOpen?
    ensures Reported(c, st, now).state == HALF_OPEN <==>
      Decide(c, st, now).AllowProbe? || Decide(c, st, now).RejectProbe?
    ensures Reported(c, st, now).state == CLOSED <==> Decide(c, st, now).AllowClosed?
  {
  }

  // The record as text

  const BAR: char := '|'

  function Fields(st: Cb): seq<string> {
    [FormatInt(st.state), FormatInt(st.failures), FormatInt(st.successes), FormatInt(st.openedAt), FormatInt(st.inflight)]
  }

  function Text(st: Cb): string {
    Join(Fields(st), BAR)
  }

  function ParseOrZero(s: string): int {
    var v := ParseInt(s);
    if v.None? then 0 else v.value
  }

  /** The record a stored text stands for: a missing or short one is all zero. */
  function FromText(s: string): Cb {
    var parts := Split(s, BAR);
    if |parts| >= 5 then
      Cb(ParseOrZero(parts[0]), ParseOrZero(parts[1]), ParseOrZero(parts[2]), ParseOrZero(parts[3]), ParseOrZero(parts[4]))
    else ZERO
  }

  predicate Writable(st: Cb) {
    IsInt64(st.state) && IsInt64(st.failures) && IsInt64(st.successes) && IsInt64(st.openedAt) && IsInt64(st.inflight)
  }

  lemma FieldFree(v: int)
    ensures Free(FormatInt(v), BAR)
  {
    FormatAlphabet(v);
  }

  /** Every record comes back from its text. */
  lemma FromTextText(st: Cb)
    requires Writable(st)
    ensures FromText(Text(st)) == st
  {
    FieldFree(st.state);
    FieldFree(st.failures);
    FieldFree(st.successes);
    FieldFree(st.openedAt);
    FieldFree(st.inflight);
    SplitJoin(Fields(st), BAR);
    ParseFormat(st.state);
    ParseFormat(st.failures);
    ParseFormat(st.successes);
    ParseFormat(st.openedAt);
    ParseFormat(st.inflight);
  }

  /** The text: the five fields in this order, between bars. */
  lemma TextFormat(st: Cb)
    ensures Text(st) == FormatInt(st.state) + "|" + FormatInt(st.failures) + "|" + FormatInt(st.successes) + "|"
                      + FormatInt(st.openedAt) + "|" + FormatInt(st.inflight)
  {
    hide FormatInt;
    var f := Fields(st);
    assert Join(f[4..], BAR) == f[4];
    assert Join(f[3..], BAR) == f[3] + "|" + f[4] by { assert f[3..][1..] == f[4..]; }
    assert Join(f[2..], BAR) == f[2] + "|" + (f[3] + "|" + f[4]) by { assert f[2..][1..] == f[3..]; }
    assert Join(f[1..], BAR) == f[1] + "|" + (f[2] + "|" + (f[3] + "|" + f[4])) by { assert f[1..][1..] == f[2..]; }
  }

  lemma FromEmptyText()
    ensures FromText("") == ZERO
  {
    SplitAt("", "", BAR);
  }

  /** The scan that reads a stored record. */
  method ParseState(s: string) returns (st: Cb)
    ensures st == FromText(s)
  {
    hide Split, Free, ParseInt;
    if s == "" {
      FromEmptyText();
      return ZERO;
    }
    var parts: seq<string> := [];
    var start := 0;
    assert s[0..] == s;
    FreeSlice(s, 0, 0, BAR);
    for i := 0 to |s| + 1
      invariant start <= i <= |s| + 1 && (start == |s| + 1 <==> i == |s| + 1)
      invariant start <= |s| ==> Free(s[start..i], BAR) && Split(s, BAR) == parts + Split(s[start..], BAR)
      invariant start == |s| + 1 ==> Split(s, BAR) == parts
    {
      if i == |s| || s[i] == BAR {
        NextField(s, start, i, parts, BAR);
        parts := parts + [s[start..i]];
        start := i + 1;
        if i < |s| {
          FreeSlice(s, start, start, BAR);
        }
      } else {
        FreeSlice(s, start, i, BAR);
      }
    }
    st := ZERO;
    if |parts| >= 5 {
      st := Cb(ParseOrZero(parts[0]), ParseOrZero(parts[1]), ParseOrZero(parts[2]), ParseOrZero(parts[3]), ParseOrZero(parts[4]));
    }
  }
}
