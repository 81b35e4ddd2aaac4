/** Text split into fields at a separator character. */
module Records {

  ghost predicate Free(s: string, sep: char) {
    forall i | 0 <= i < |s| :: s[i] != sep
  }

  /** The index of the first separator, or the length if there is none. */
  function Index(s: string, sep: char): (i: nat)
    ensures i <= |s| && Free(s[..i], sep)
    ensures i < |s| ==> s[i] == sep
  {
    if s == [] || s[0] == sep then 0 else 1 + Index(s[1..], sep)
  }

  function Split(s: string, sep: char): (parts: seq<string>)
    ensures parts != []
    decreases |s|
  {
    var i := Index(s, sep);
    if i == |s| then [s] else [s[..i]] + Split(s[i + 1..], sep)
  }

  function Join(parts: seq<string>, sep: char): string
    requires parts != []
  {
    if |parts| == 1 then parts[0] else parts[0] + [sep] + Join(parts[1..], sep)
  }

  lemma IndexAt(a: string, b: string, sep: char)
    requires Free(a, sep)
    ensures Index(a + [sep] + b, sep) == |a|
    ensures Index(a, sep) == |a|
  {
    var s := a + [sep] + b;
    assert s[|a|] == sep;
    assert forall j | 0 <= j < |a| :: s[j] == a[j];
    FirstIndex(s, sep, |a|);
    FirstIndex(a, sep, |a|);
  }

  lemma {:induction false} FirstIndex(s: string, sep: char, i: nat)
    requires i <= |s| && (forall j | 0 <= j < i :: s[j] != sep) && (i < |s| ==> s[i] == sep)
    ensures Index(s, sep) == i
  {
    if i > 0 {
      FirstIndex(s[1..], sep, i - 1);
    }
  }

  lemma SplitAt(a: string, b: string, sep: char)
    requires Free(a, sep)
    ensures Split(a + [sep] + b, sep) == [a] + Split(b, sep)
    ensures Split(a, sep) == [a]
  {
    IndexAt(a, b, sep);
    var s := a + [sep] + b;
    assert s[..|a|] == a && s[|a| + 1..] == b;
  }

  /** Splitting a join gives the parts back when none holds the separator. */
  lemma {:induction false} SplitJoin(parts: seq<string>, sep: char)
    requires parts != [] && forall i | 0 <= i < |parts| :: Free(parts[i], sep)
    ensures Split(Join(parts, sep), sep) == parts
  {
    if |parts| == 1 {
      SplitAt(parts[0], [], sep);
    } else {
      SplitAt(parts[0], Join(parts[1..], sep), sep);
      SplitJoin(parts[1..], sep);
    }
  }

  lemma {:induction false} SplitFree(s: string, sep: char)
    ensures forall i | 0 <= i < |Split(s, sep)| :: Free(Split(s, sep)[i], sep)
    decreases |s|
  {
    var i := Index(s, sep);
    if i < |s| {
      SplitFree(s[i + 1..], sep);
    } else {
      assert s[..i] == s;
    }
  }

  /** One more field read: the scan stands at a separator or at the end. */
  lemma NextField(s: string, start: nat, i: nat, parts: seq<string>, sep: char)
    requires start <= i <= |s| && Free(s[start..i], sep) && (i < |s| ==> s[i] == sep)
    requires Split(s, sep) == parts + Split(s[start..], sep)
    ensures i < |s| ==> Split(s, sep) == parts + [s[start..i]] + Split(s[i + 1..], sep)
    ensures i == |s| ==> Split(s, sep) == parts + [s[start..i]]
  {
    hide Split, Free;
    var field := s[start..i];
    if i < |s| {
      assert s[start..] == field + [sep] + s[i + 1..];
      SplitAt(field, s[i + 1..], sep);
      Reassociate(parts, field, Split(s[i + 1..], sep));
    } else {
      assert s[start..] == field;
      SplitAt(field, [], sep);
    }
  }

  lemma Reassociate(a: seq<string>, b: string, c: seq<string>)
    ensures a + ([b] + c) == a + [b] + c
  {
  }

  /** A slice without separators, grown by one character. */
  lemma FreeSlice(s: string, start: nat, i: nat, sep: char)
    requires start <= i <= |s|
    ensures Free(s[start..start], sep)
    ensures i < |s| && Free(s[start..i], sep) && s[i] != sep ==> Free(s[start..i + 1], sep)
  {
    if i < |s| {
      assert s[start..i + 1] == s[start..i] + [s[i]];
    }
  }
}
