/** The sorted set as one string: "score US name" records joined by RS. */
module ZSetText {
  import opened Ratelimit
  import opened Decimal
  import opened Records
  import opened ZSet

  function RecordText(m: Member): string {
    FormatInt(m.score) + [US] + m.name
  }

  function Texts(ms: seq<Member>): (ts: seq<string>)
    ensures |ts| == |ms| && forall i | 0 <= i < |ms| :: ts[i] == RecordText(ms[i])
  {
    seq(|ms|, i requires 0 <= i < |ms| => RecordText(ms[i]))
  }

  function Text(ms: seq<Member>): string {
    if ms == [] then "" else Join(Texts(ms), RS)
  }

  /** One record; records without a separator or with a bad score are skipped. */
  function ReadRecord(rec: string): Option<Member> {
    var sep := Index(rec, US);
    if sep == |rec| then None
    else
      var score := ParseInt(rec[..sep]);
      if score.None? then None else Some(Member(score.value, rec[sep + 1..]))
  }

  function ReadAll(recs: seq<string>): seq<Member> {
    if recs == [] then []
    else
      var last := ReadRecord(recs[|recs| - 1]);
      ReadAll(recs[..|recs| - 1]) + if last.Some? then [last.value] else []
  }

  function Read(s: string): seq<Member> {
    ReadAll(Split(s, RS))
  }

  method ParseRecord(rec: string) returns (m: Option<Member>)
    ensures m == ReadRecord(rec)
  {
    var sep := 0;
    while sep < |rec| && rec[sep] != US
      invariant 0 <= sep <= |rec| && forall k | 0 <= k < sep :: rec[k] != US
    {
      sep := sep + 1;
    }
    FirstIndex(rec, US, sep);
    if sep == |rec| {
      return None;
    }
    var score := ParseInt(rec[..sep]);
    return if score.None? then None else Some(Member(score.value, rec[sep + 1..]));
  }

  method Parse(s: string) returns (members: seq<Member>)
    ensures members == Read(s)
  {
    hide Split, Free, ReadRecord;
    members := [];
    ghost var recs: seq<string> := [];
    var start := 0;
    assert s[0..] == s;
    FreeSlice(s, 0, 0, RS);
    for i := 0 to |s| + 1
      invariant start <= i <= |s| + 1 && (start == |s| + 1 <==> i == |s| + 1)
      invariant start <= |s| ==> Free(s[start..i], RS) && Split(s, RS) == recs + Split(s[start..], RS)
      invariant start == |s| + 1 ==> Split(s, RS) == recs
      invariant members == ReadAll(recs)
    {
      if i == |s| || s[i] == RS {
        var rec := s[start..i];
        NextField(s, start, i, recs, RS);
        assert (recs + [rec])[..|recs|] == recs;
        recs := recs + [rec];
        start := i + 1;
        EmptyRecord();
        if rec != "" {
          var m := ParseRecord(rec);
          if m.Some? {
            members := members + [m.value];
          }
        }
        if i < |s| {
          FreeSlice(s, start, start, RS);
        }
      } else {
        FreeSlice(s, start, i, RS);
      }
    }
  }

  lemma EmptyRecord()
    ensures ReadRecord("").None?
  {
  }

  method Serialize(members: seq<Member>) returns (s: string)
    ensures s == Text(members)
  {
    hide Text, Texts, RecordText, FormatInt;
    s := "";
    assert members[..0] == [];
    TextEmpty();
    for i := 0 to |members|
      invariant s == Text(members[..i])
    {
      ghost var before := s;
      if i > 0 {
        s := s + [RS];
      }
      s := s + FormatInt(members[i].score);
      s := s + [US];
      s := s + members[i].name;
      TextAppend(members[..i], members[i]);
      assert members[..i] + [members[i]] == members[..i + 1];
      RecordAppend(if i == 0 then "" else before + [RS], members[i]);
    }
    assert members[..|members|] == members;
  }

  lemma RecordAppend(before: string, m: Member)
    ensures before + FormatInt(m.score) + [US] + m.name == before + RecordText(m)
  {
  }

  lemma TextEmpty()
    ensures Text([]) == ""
  {
  }

  lemma TextAppend(ms: seq<Member>, m: Member)
    ensures Text(ms + [m]) == (if ms == [] then "" else Text(ms) + [RS]) + RecordText(m)
  {
    if ms == [] {
      assert Texts([m]) == [RecordText(m)];
    } else {
      assert Texts(ms + [m]) == Texts(ms) + [RecordText(m)];
      JoinAppend(Texts(ms), RecordText(m), RS);
    }
  }

  lemma {:induction false} JoinAppend(parts: seq<string>, last: string, sep: char)
    requires parts != []
    ensures Join(parts + [last], sep) == Join(parts, sep) + [sep] + last
  {
    if |parts| > 1 {
      assert (parts + [last])[1..] == parts[1..] + [last];
      JoinAppend(parts[1..], last, sep);
    } else {
      assert (parts + [last])[1..] == [last];
    }
  }

  /** A set that can be written: 64-bit scores, names without the record separator. */
  ghost predicate Writable(ms: seq<Member>) {
    forall i | 0 <= i < |ms| :: IsInt64(ms[i].score) && Free(ms[i].name, RS)
  }

  /** Reading back what was written. */
  lemma ReadText(ms: seq<Member>)
    requires Writable(ms)
    ensures Read(Text(ms)) == ms
  {
    if ms == [] {
      SplitAt("", "", RS);
      assert ReadAll([""]) == ReadAll([]) by { assert [""][..0] == []; }
    } else {
      forall i | 0 <= i < |ms|
        ensures Free(Texts(ms)[i], RS)
      {
        FormatAlphabet(ms[i].score);
      }
      SplitJoin(Texts(ms), RS);
      ReadTexts(ms);
    }
  }

  lemma ReadRecordText(m: Member)
    requires IsInt64(m.score)
    ensures ReadRecord(RecordText(m)) == Some(m)
  {
    var number := FormatInt(m.score);
    FormatAlphabet(m.score);
    IndexAt(number, m.name, US);
    ParseFormat(m.score);
    hide Index, FormatInt, ParseInt;
    assert RecordText(m)[..|number|] == number;
    assert RecordText(m)[|number| + 1..] == m.name;
  }

  lemma {:induction false} ReadTexts(ms: seq<Member>)
    requires Writable(ms)
    ensures ReadAll(Texts(ms)) == ms
  {
    hide ReadRecord, RecordText;
    if ms != [] {
      var rest, m := ms[..|ms| - 1], ms[|ms| - 1];
      assert Texts(ms)[..|ms| - 1] == Texts(rest);
      ReadTexts(rest);
      ReadRecordText(m);
    }
  }

  lemma {:induction false} ReadAllWritable(recs: seq<string>)
    requires forall i | 0 <= i < |recs| :: Free(recs[i], RS)
    ensures Writable(ReadAll(recs))
  {
    if recs != [] {
      ReadAllWritable(recs[..|recs| - 1]);
    }
  }

  /** The sets that survive being written are exactly the writable ones. */
  lemma RoundTripIff(ms: seq<Member>)
    ensures Read(Text(ms)) == ms <==> Writable(ms)
  {
    if Writable(ms) {
      ReadText(ms);
    }
    SplitFree(Text(ms), RS);
    ReadAllWritable(Split(Text(ms), RS));
  }
}
