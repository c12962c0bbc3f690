/** The receipt header `k=v;k=v` and its three readers: one that fills a record, one that fills a `Map`,
    and one in Python that fills a dictionary. */
module TraceHeader {
  import opened Strings
  import Text
  import opened Wrappers

  datatype Reader = RecordReader | MapReader | DictReader

  /** `part.indexOf('=')`, and `|part|` when there is none. */
  function Cut(part: string): (i: nat)
    ensures i <= |part|
    ensures '=' !in part[..i]
    ensures i < |part| ==> part[i] == '='
  {
    if part == [] || part[0] == '=' then 0
    else
      assert part[..1 + Cut(part[1..])] == [part[0]] + part[1..][..Cut(part[1..])];
      1 + Cut(part[1..])
  }

  /** Assigning a string to this property of a plain object does nothing. */
  const PROTO := "__proto__"

  /** Whether a reader takes anything from a part: the two in TypeScript want something before the `=`,
      and a record cannot hold every key. */
  predicate Takes(reader: Reader, part: string) {
    match reader
    case RecordReader => 0 < Cut(part) < |part| && Key(part) != PROTO
    case MapReader => 0 < Cut(part) < |part|
    case DictReader => Cut(part) < |part|
  }

  function Key(part: string): string {
    Trim(part[..Cut(part)])
  }

  function Value(part: string): string
    requires Cut(part) < |part|
  {
    Trim(part[Cut(part) + 1..])
  }

  function Fold(reader: Reader, parts: seq<string>): map<string, string> {
    if parts == [] then map[]
    else
      var before := Fold(reader, parts[..|parts| - 1]);
      var part := parts[|parts| - 1];
      if Takes(reader, part) then before[Key(part) := Value(part)] else before
  }

  function Parse(reader: Reader, raw: string): map<string, string> {
    Fold(reader, Split(raw, ';'))
  }

  // ----- what a reader reads, said of the parts -----

  /** The part is `key=value` with white space anywhere around; the TypeScript readers want something in
      front of the first `=`, and a plain object takes no string under `__proto__`. */
  ghost predicate Gives(reader: Reader, part: string, key: string, value: string) {
    exists before, after :: IsCutAt(part, before, after) && key == Trim(before) && value == Trim(after)
      && (reader != DictReader ==> before != "") && (reader == RecordReader ==> key != "__proto__")
  }

  predicate IsCutAt(part: string, before: string, after: string) {
    part == before + "=" + after && '=' !in before
  }

  /** The value of a key is that of the last part that gives it one. */
  ghost predicate IsRead(reader: Reader, parts: seq<string>, out: map<string, string>) {
    forall key, value :: Holds(out, key, value) <==> IsLastValue(reader, parts, key, value)
  }

  predicate Holds(out: map<string, string>, key: string, value: string) {
    key in out && out[key] == value
  }

  ghost predicate IsLastValue(reader: Reader, parts: seq<string>, key: string, value: string) {
    exists i :: LastGives(reader, parts, i, key, value)
  }

  ghost predicate LastGives(reader: Reader, parts: seq<string>, i: nat, key: string, value: string) {
    i < |parts| && Gives(reader, parts[i], key, value) && forall j, v :: i < j < |parts| ==> !Gives(reader, parts[j], key, v)
  }

  lemma GivesIff(reader: Reader, part: string, key: string, value: string)
    ensures Gives(reader, part, key, value) <==> Takes(reader, part) && Key(part) == key && Value(part) == value
  {
    hide Cut, Trim;
    var i := Cut(part);
    if i < |part| {
      assert IsCutAt(part, part[..i], part[i + 1..]);
    }
    if Gives(reader, part, key, value) {
      var before, after :| IsCutAt(part, before, after) && key == Trim(before) && value == Trim(after)
        && (reader != DictReader ==> before != "") && (reader == RecordReader ==> key != "__proto__");
      CutOnce(part, before, after);
    }
  }

  lemma CutOnce(part: string, before: string, after: string)
    requires IsCutAt(part, before, after)
    ensures Cut(part) == |before| < |part| && part[..Cut(part)] == before && part[Cut(part) + 1..] == after
  {
    hide Cut;
    var i := Cut(part);
    assert part[|before|] == '=' && part[..|before|] == before;
    assert forall k :: 0 <= k < |before| ==> part[k] == before[k];
    assert forall k :: 0 <= k < i ==> part[..i][k] == part[k];
  }

  lemma {:induction false} FoldIsRead(reader: Reader, parts: seq<string>)
    ensures IsRead(reader, parts, Fold(reader, parts))
    decreases |parts|
  {
    if parts != [] {
      var n := |parts| - 1;
      FoldIsRead(reader, parts[..n]);
      ReadNext(reader, parts, Fold(reader, parts[..n]));
    }
  }

  lemma ReadNext(reader: Reader, parts: seq<string>, before: map<string, string>)
    requires parts != [] && IsRead(reader, parts[..|parts| - 1], before)
    ensures var part := parts[|parts| - 1];
      IsRead(reader, parts, if Takes(reader, part) then before[Key(part) := Value(part)] else before)
  {
    var n := |parts| - 1;
    var front, part := parts[..n], parts[n];
    var out := if Takes(reader, part) then before[Key(part) := Value(part)] else before;
    forall key, value ensures Holds(out, key, value) <==> IsLastValue(reader, parts, key, value) {
      forall v ensures Gives(reader, part, key, v) <==> Takes(reader, part) && Key(part) == key && Value(part) == v {
        GivesIff(reader, part, key, v);
      }
      assert Takes(reader, part) && Key(part) == key ==> Gives(reader, part, key, Value(part));
      hide Gives, Takes, Key, Value, IsLastValue;
      LastOrBefore(reader, parts, key, value);
      assert Holds(before, key, value) <==> IsLastValue(reader, front, key, value);
    }
  }

  lemma LastOrBefore(reader: Reader, parts: seq<string>, key: string, value: string)
    requires parts != []
    ensures var n := |parts| - 1;
      IsLastValue(reader, parts, key, value) <==>
        if exists v :: Gives(reader, parts[n], key, v) then Gives(reader, parts[n], key, value)
        else IsLastValue(reader, parts[..n], key, value)
  {
    hide Gives;
    var n := |parts| - 1;
    var front := parts[..n];
    assert forall j :: 0 <= j < n ==> front[j] == parts[j];
    if Gives(reader, parts[n], key, value) {
      assert LastGives(reader, parts, n, key, value);
    } else if !exists v :: Gives(reader, parts[n], key, v) {
      if i :| LastGives(reader, parts, i, key, value) {
        assert LastGives(reader, front, i, key, value);
      }
      if i :| LastGives(reader, front, i, key, value) {
        assert LastGives(reader, parts, i, key, value);
      }
    }
  }

  /** `potion-check`: into a record. */
  method ParseIntoRecord(raw: string) returns (out: map<string, string>)
    ensures out == Parse(RecordReader, raw)
    ensures IsRead(RecordReader, Split(raw, ';'), out)
  {
    FoldIsRead(RecordReader, Split(raw, ';'));
    hide Cut, Trim, Split, IsRead;
    out := map[];
    var parts := Split(raw, ';');
    for i := 0 to |parts|
      invariant out == Fold(RecordReader, parts[..i])
    {
      assert parts[..i + 1][..i] == parts[..i];
      var eq := Cut(parts[i]);
      if 0 < eq < |parts[i]| {
        var key := Trim(parts[i][..eq]);
        if key != PROTO {
          out := out[key := Trim(parts[i][eq + 1..])];
        }
      }
    }
    assert parts[..|parts|] == parts;
  }

  /** `describeReceipt`: into a `Map`. */
  method ParseIntoMap(raw: string) returns (kv: map<string, string>)
    ensures kv == Parse(MapReader, raw)
    ensures IsRead(MapReader, Split(raw, ';'), kv)
  {
    FoldIsRead(MapReader, Split(raw, ';'));
    hide Cut, Trim, Split, IsRead;
    kv := map[];
    var parts := Split(raw, ';');
    for i := 0 to |parts|
      invariant kv == Fold(MapReader, parts[..i])
    {
      assert parts[..i + 1][..i] == parts[..i];
      var eq := Cut(parts[i]);
      if 0 < eq < |parts[i]| {
        kv := kv[Trim(parts[i][..eq]) := Trim(parts[i][eq + 1..])];
      }
    }
    assert parts[..|parts|] == parts;
  }

  /** `parse_trace`: into a dictionary. */
  method ParseIntoDict(raw: string) returns (out: map<string, string>)
    ensures out == Parse(DictReader, raw)
    ensures IsRead(DictReader, Split(raw, ';'), out)
  {
    FoldIsRead(DictReader, Split(raw, ';'));
    hide Cut, Trim, Split, IsRead;
    out := map[];
    var parts := Split(raw, ';');
    for i := 0 to |parts|
      invariant out == Fold(DictReader, parts[..i])
    {
      assert parts[..i + 1][..i] == parts[..i];
      var eq := Cut(parts[i]);
      if eq < |parts[i]| {
        out := out[Trim(parts[i][..eq]) := Trim(parts[i][eq + 1..])];
      }
    }
    assert parts[..|parts|] == parts;
  }

  // ----- round trip -----

  datatype Pair = Pair(key: string, value: string)

  function Written(pairs: seq<Pair>): (parts: seq<string>)
    ensures |parts| == |pairs|
    ensures forall i :: 0 <= i < |pairs| ==> parts[i] == pairs[i].key + "=" + pairs[i].value
  {
    seq(|pairs|, i requires 0 <= i < |pairs| => pairs[i].key + "=" + pairs[i].value)
  }

  function Format(pairs: seq<Pair>): string {
    Join(Written(pairs), ';')
  }

  function LastWins(pairs: seq<Pair>): map<string, string> {
    if pairs == [] then map[]
    else LastWins(pairs[..|pairs| - 1])[pairs[|pairs| - 1].key := pairs[|pairs| - 1].value]
  }

  /** What a reader can get back: values may hold `=`, and only a dictionary takes an empty key. */
  predicate Readable(reader: Reader, p: Pair) {
    && Trimmed(p.key) && '=' !in p.key && ';' !in p.key
    && Trimmed(p.value) && ';' !in p.value
    && (reader.DictReader? || p.key != "")
    && (reader.RecordReader? ==> p.key != PROTO)
  }

  lemma CutOfWritten(key: string, value: string)
    requires '=' !in key
    ensures Cut(key + "=" + value) == |key|
    decreases key
  {
    var part := key + "=" + value;
    if key != [] {
      assert part[1..] == key[1..] + "=" + value;
      CutOfWritten(key[1..], value);
    }
  }

  lemma WrittenIsTaken(reader: Reader, p: Pair)
    requires Readable(reader, p)
    ensures var part := p.key + "=" + p.value;
      Takes(reader, part) && Key(part) == p.key && Value(part) == p.value
  {
    var part := p.key + "=" + p.value;
    CutOfWritten(p.key, p.value);
    assert part[..|p.key|] == p.key && part[|p.key| + 1..] == p.value;
    TrimOfTrimmed(p.key);
    TrimOfTrimmed(p.value);
  }

  lemma {:induction false} FoldOfWritten(reader: Reader, pairs: seq<Pair>)
    requires forall i :: 0 <= i < |pairs| ==> Readable(reader, pairs[i])
    ensures Fold(reader, Written(pairs)) == LastWins(pairs)
    decreases |pairs|
  {
    if pairs == [] {
    } else {
      hide Readable, Takes, Key, Value, Fold, Written;
      var n := |pairs| - 1;
      WrittenPrefix(pairs);
      FoldOfWritten(reader, pairs[..n]);
      WrittenIsTaken(reader, pairs[n]);
      FoldLast(reader, Written(pairs), pairs[n]);
    }
  }

  lemma WrittenPrefix(pairs: seq<Pair>)
    requires pairs != []
    ensures Written(pairs)[..|pairs| - 1] == Written(pairs[..|pairs| - 1])
  {
  }

  lemma FoldLast(reader: Reader, parts: seq<string>, p: Pair)
    requires parts != []
    requires var part := parts[|parts| - 1]; Takes(reader, part) && Key(part) == p.key && Value(part) == p.value
    ensures Fold(reader, parts) == Fold(reader, parts[..|parts| - 1])[p.key := p.value]
  {
    hide Takes, Key, Value;
  }

  /** Writing pairs and reading them back yields the last value of every key. */
  lemma RoundTrip(reader: Reader, pairs: seq<Pair>)
    requires forall i :: 0 <= i < |pairs| ==> Readable(reader, pairs[i])
    ensures Parse(reader, Format(pairs)) == LastWins(pairs)
  {
    hide Fold, Takes;
    FoldOfWritten(reader, pairs);
    var parts := Written(pairs);
    if pairs == [] {
      NothingInEmpty(reader);
    } else {
      forall i | 0 <= i < |parts| ensures ';' !in parts[i] {
        assert Readable(reader, pairs[i]);
      }
      SplitOfJoin(parts, ';');
    }
  }

  lemma NothingInEmpty(reader: Reader)
    ensures Fold(reader, Split("", ';')) == map[] == Fold(reader, [])
  {
    assert [""][..0] == [];
  }

  lemma NoneIn(s: string, t: string, c: char)
    requires c !in s && (t <= s || exists i :: 0 <= i <= |s| && t == s[i..])
    ensures c !in t
  {
  }

  lemma {:induction false} TrimmedStart(s: string)
    ensures exists i :: 0 <= i <= |s| && TrimStart(s) == s[i..]
  {
    if s != [] && Text.IsSpace(s[0]) {
      TrimmedStart(s[1..]);
      var i :| 0 <= i <= |s[1..]| && TrimStart(s[1..]) == s[1..][i..];
      assert s[1..][i..] == s[i + 1..];
    } else {
      assert s[0..] == s;
    }
  }

  lemma TrimAddsNothing(s: string, c: char)
    requires c !in s
    ensures c !in Trim(s)
  {
    TrimmedStart(s);
    NoneIn(s, TrimStart(s), c);
    NoneIn(TrimStart(s), Trim(s), c);
  }

  /** What a reader takes from a part can be written again. */
  lemma TakenIsReadable(reader: Reader, part: string)
    requires ';' !in part && Takes(reader, part) && (reader.DictReader? || Key(part) != "")
    ensures Readable(reader, Pair(Key(part), Value(part)))
  {
    hide Cut, Trim;
    var head, tail := part[..Cut(part)], part[Cut(part) + 1..];
    TrimIsTrimmed(head);
    TrimIsTrimmed(tail);
    NoneIn(part, head, ';');
    NoneIn(part, tail, ';');
    TrimAddsNothing(head, '=');
    TrimAddsNothing(head, ';');
    TrimAddsNothing(tail, ';');
  }

  lemma {:induction false} FoldIsReadable(reader: Reader, parts: seq<string>, key: string)
    requires forall i :: 0 <= i < |parts| ==> ';' !in parts[i]
    requires key in Fold(reader, parts) && (reader.DictReader? || key != "")
    ensures Readable(reader, Pair(key, Fold(reader, parts)[key]))
    decreases |parts|
  {
    hide Takes, Key, Value, Readable;
    var n := |parts| - 1;
    if Takes(reader, parts[n]) && Key(parts[n]) == key {
      TakenIsReadable(reader, parts[n]);
    } else {
      FoldIsReadable(reader, parts[..n], key);
    }
  }

  ghost predicate ComesBack(reader: Reader, p: Pair) {
    exists raw :: Yields(reader, raw, p)
  }

  predicate Yields(reader: Reader, raw: string, p: Pair) {
    p.key in Parse(reader, raw) && Parse(reader, raw)[p.key] == p.value
  }

  /** The condition of the round trip is exact: a pair with a key comes back from some header exactly when
      it meets the condition. */
  lemma ReadableIffComesBack(reader: Reader, p: Pair)
    requires p.key != ""
    ensures Readable(reader, p) <==> ComesBack(reader, p)
  {
    hide Readable, Fold, Split;
    if Readable(reader, p) {
      RoundTrip(reader, [p]);
      OnePair(p);
      assert Yields(reader, Format([p]), p);
    }
    if ComesBack(reader, p) {
      var raw :| Yields(reader, raw, p);
      FoldIsReadable(reader, Split(raw, ';'), p.key);
    }
  }

  // ----- do the readers agree? -----

  /** On every header the two TypeScript readers hold the same pairs, except that the record cannot
      hold the key its prototype hides behind. */
  lemma TypeScriptReadersAgreeIff(raw: string)
    ensures Parse(RecordReader, raw) == Parse(MapReader, raw) - {PROTO}
    ensures Parse(RecordReader, raw) == Parse(MapReader, raw) <==> PROTO !in Parse(MapReader, raw)
  {
    RecordIsMapWithoutProto(Split(raw, ';'));
  }

  lemma {:induction false} RecordIsMapWithoutProto(parts: seq<string>)
    ensures Fold(RecordReader, parts) == Fold(MapReader, parts) - {PROTO}
    decreases |parts|
  {
    hide Cut, Trim;
    if parts != [] {
      RecordIsMapWithoutProto(parts[..|parts| - 1]);
    }
  }

  lemma OnePair(p: Pair)
    ensures Format([p]) == p.key + "=" + p.value && LastWins([p]) == map[p.key := p.value]
  {
    assert [p][..0] == [];
  }

  /** A header that names that key, and what each reader makes of it. */
  lemma RecordDropsProto()
    ensures Parse(MapReader, PROTO + "=x") == map[PROTO := "x"] && Parse(RecordReader, PROTO + "=x") == map[]
  {
    hide Parse, Format, LastWins;
    var p := Pair(PROTO, "x");
    OnePair(p);
    assert PROTO + "=" + "x" == PROTO + "=x";
    RoundTrip(MapReader, [p]);
    TypeScriptReadersAgreeIff(PROTO + "=x");
  }

  /** The Python reader agrees with the `Map` on every key but the empty one, and altogether when no
      part starts with `=`. */
  lemma PythonDiffersOnlyBeforeEquals(raw: string)
    ensures Parse(DictReader, raw) - {""} == Parse(MapReader, raw) - {""}
    ensures (forall i :: 0 <= i < |Split(raw, ';')| ==> !StartsWithEquals(Split(raw, ';')[i])) ==>
      Parse(DictReader, raw) == Parse(MapReader, raw)
  {
    DictIsMapOffEmpty(Split(raw, ';'));
    if forall i :: 0 <= i < |Split(raw, ';')| ==> !StartsWithEquals(Split(raw, ';')[i]) {
      DictIsMap(Split(raw, ';'));
    }
  }

  predicate StartsWithEquals(part: string) {
    part != [] && part[0] == '='
  }

  lemma {:induction false} DictIsMapOffEmpty(parts: seq<string>)
    ensures Fold(DictReader, parts) - {""} == Fold(MapReader, parts) - {""}
    decreases |parts|
  {
    if parts != [] {
      hide Trim, Value;
      var before := parts[..|parts| - 1];
      DictIsMapOffEmpty(before);
      var part := parts[|parts| - 1];
      if Cut(part) < |part| {
        if Cut(part) == 0 {
          NothingBeforeCut(part);
        }
        SameOff(Fold(DictReader, before), Fold(MapReader, before), "", Key(part), Value(part));
      }
    }
  }

  lemma SameOff(m: map<string, string>, n: map<string, string>, off: string, key: string, value: string)
    requires m - {off} == n - {off}
    ensures m[key := value] - {off} == n[key := value] - {off}
    ensures key == off ==> m[key := value] - {off} == n - {off}
  {
    assert forall k :: k != off && k in m ==> k in m - {off} && (m - {off})[k] == m[k];
    assert forall k :: k != off && k in n ==> k in n - {off} && (n - {off})[k] == n[k];
  }

  lemma NothingBeforeCut(part: string)
    requires Cut(part) == 0
    ensures Key(part) == ""
  {
    assert part[..0] == "";
  }

  lemma {:induction false} DictIsMap(parts: seq<string>)
    requires forall i :: 0 <= i < |parts| ==> !StartsWithEquals(parts[i])
    ensures Fold(DictReader, parts) == Fold(MapReader, parts)
    decreases |parts|
  {
    if parts != [] {
      DictIsMap(parts[..|parts| - 1]);
    }
  }

  /** The value of the last part that a reader takes and whose key is blank. */
  function LastBlank(reader: Reader, parts: seq<string>): Option<string> {
    if parts == [] then None
    else
      var part := parts[|parts| - 1];
      if Takes(reader, part) && Key(part) == "" then Some(Value(part)) else LastBlank(reader, parts[..|parts| - 1])
  }

  /** It is what the reader holds under the empty key. */
  lemma {:induction false} BlankIsLast(reader: Reader, parts: seq<string>)
    ensures "" in Fold(reader, parts) <==> LastBlank(reader, parts).Some?
    ensures "" in Fold(reader, parts) ==> Fold(reader, parts)[""] == LastBlank(reader, parts).value
    decreases |parts|
  {
    hide Takes, Key, Value;
    if parts != [] {
      BlankIsLast(reader, parts[..|parts| - 1]);
    }
  }

  /** The Python reader and the `Map` agree on a header exactly when the last part with a blank key is
      the same to both. */
  lemma PythonAgreesIff(raw: string)
    ensures Parse(DictReader, raw) == Parse(MapReader, raw) <==>
      LastBlank(DictReader, Split(raw, ';')) == LastBlank(MapReader, Split(raw, ';'))
  {
    hide Split, Fold, LastBlank;
    var parts := Split(raw, ';');
    DictIsMapOffEmpty(parts);
    BlankIsLast(DictReader, parts);
    BlankIsLast(MapReader, parts);
    if LastBlank(DictReader, parts) == LastBlank(MapReader, parts) {
      SameEverywhere(Fold(DictReader, parts), Fold(MapReader, parts), "");
    }
  }

  lemma SameEverywhere(m: map<string, string>, n: map<string, string>, off: string)
    requires m - {off} == n - {off} && (off in m <==> off in n) && (off in m ==> m[off] == n[off])
    ensures m == n
  {
    forall k ensures k in m <==> k in n {
      assert k != off ==> (k in m <==> k in m - {off}) && (k in n <==> k in n - {off});
    }
    forall k | k in m ensures m[k] == n[k] {
      assert k != off ==> m[k] == (m - {off})[k] && n[k] == (n - {off})[k];
    }
  }

  /** The `i`-th part has a blank key before an `=`, and no later part that the reader takes has one. */
  ghost predicate IsLastBlank(reader: Reader, parts: seq<string>, i: nat) {
    && i < |parts| && IsBlankPart(reader, parts[i])
    && (forall j :: i < j < |parts| ==> !IsBlankPart(reader, parts[j]))
  }

  predicate IsBlankPart(reader: Reader, part: string) {
    Takes(reader, part) && Key(part) == ""
  }

  lemma {:induction false} LastBlankExists(reader: Reader, parts: seq<string>) returns (i: nat)
    requires LastBlank(reader, parts).Some?
    ensures IsLastBlank(reader, parts, i)
    decreases |parts|
  {
    hide Takes, Key, Value;
    var n := |parts| - 1;
    if IsBlankPart(reader, parts[n]) {
      i := n;
    } else {
      i := LastBlankExists(reader, parts[..n]);
    }
  }

  lemma {:induction false} LastBlankIs(reader: Reader, parts: seq<string>, i: nat)
    requires IsLastBlank(reader, parts, i)
    ensures Cut(parts[i]) < |parts[i]| && LastBlank(reader, parts) == Some(Value(parts[i]))
    decreases |parts|
  {
    hide Cut, Key, Value;
    var n := |parts| - 1;
    if i < n {
      assert parts[..n][i] == parts[i];
      LastBlankIs(reader, parts[..n], i);
    }
  }

  /** An earlier blank key with white space before its `=`, the last such, holds the value of the `i`-th part. */
  ghost predicate IsShadowed(parts: seq<string>, i: nat) {
    && i < |parts| && Cut(parts[i]) < |parts[i]|
    && exists j: nat :: IsLastBlank(MapReader, parts, j) && ValueAt(parts, j) == ValueAt(parts, i)
  }

  function ValueAt(parts: seq<string>, i: nat): Option<string> {
    if i < |parts| && Cut(parts[i]) < |parts[i]| then Some(Value(parts[i])) else None
  }

  /** If the `i`-th part is the last with a blank key, it has white space before its `=`, or starts with
      the `=` and repeats the value of the last blank key that has. */
  ghost predicate BlankReadsAlike(parts: seq<string>, i: nat) {
    IsLastBlank(DictReader, parts, i) ==> !StartsWithEquals(parts[i]) || IsShadowed(parts, i)
  }

  lemma BlanksReadAlikeIff(parts: seq<string>)
    ensures LastBlank(DictReader, parts) == LastBlank(MapReader, parts) <==> forall i: nat :: BlankReadsAlike(parts, i)
  {
    hide LastBlank, IsLastBlank, StartsWithEquals, IsShadowed;
    forall i: nat | LastBlank(DictReader, parts) == LastBlank(MapReader, parts) ensures BlankReadsAlike(parts, i) {
      if IsLastBlank(DictReader, parts, i) {
        LastBlankDecides(parts, i);
      }
    }
    if forall i: nat :: BlankReadsAlike(parts, i) {
      if LastBlank(DictReader, parts).Some? {
        var i := LastBlankExists(DictReader, parts);
        LastBlankDecides(parts, i);
        assert BlankReadsAlike(parts, i);
      } else {
        NoBlankForMap(parts);
      }
    }
  }

  /** Read off the header: the two agree exactly when its last blank key reads alike. */
  lemma PythonAgreesOnHeaderIff(raw: string)
    ensures Parse(DictReader, raw) == Parse(MapReader, raw) <==> forall i: nat :: BlankReadsAlike(Split(raw, ';'), i)
  {
    hide *;
    PythonAgreesIff(raw);
    BlanksReadAlikeIff(Split(raw, ';'));
  }

  lemma NoBlankForMap(parts: seq<string>)
    requires LastBlank(DictReader, parts).None?
    ensures LastBlank(MapReader, parts).None?
  {
    hide LastBlank;
    TakesMore(parts);
    if LastBlank(MapReader, parts).Some? {
      var j := LastBlankExists(MapReader, parts);
      var i := LastWith(parts, j);
      LastBlankIs(DictReader, parts, i);
    }
  }

  lemma LastWith(parts: seq<string>, j: nat) returns (i: nat)
    requires j < |parts| && IsBlankPart(DictReader, parts[j])
    ensures IsLastBlank(DictReader, parts, i)
  {
    hide IsBlankPart;
    i := |parts| - 1;
    while !IsBlankPart(DictReader, parts[i])
      invariant j <= i < |parts| && forall k :: i < k < |parts| ==> !IsBlankPart(DictReader, parts[k])
      decreases i
    {
      i := i - 1;
    }
  }

  lemma LastBlankDecides(parts: seq<string>, i: nat)
    requires IsLastBlank(DictReader, parts, i)
    ensures i < |parts|
    ensures LastBlank(DictReader, parts) == LastBlank(MapReader, parts) <==>
      !StartsWithEquals(parts[i]) || IsShadowed(parts, i)
  {
    hide LastBlank, IsBlankPart, Cut, Value, StartsWithEquals;
    TakesMore(parts);
    LastBlankIs(DictReader, parts, i);
    if !StartsWithEquals(parts[i]) {
      assert IsLastBlank(MapReader, parts, i);
      LastBlankIs(MapReader, parts, i);
    } else {
      if LastBlank(MapReader, parts).Some? {
        var j := LastBlankExists(MapReader, parts);
        LastBlankIs(MapReader, parts, j);
      }
      forall j: nat | IsLastBlank(MapReader, parts, j)
        ensures j < |parts| && Cut(parts[j]) < |parts[j]| && LastBlank(MapReader, parts) == Some(Value(parts[j]))
      {
        LastBlankIs(MapReader, parts, j);
      }
    }
  }

  /** Python takes what the `Map` takes, and beyond that only what starts with `=`. */
  lemma TakesMore(parts: seq<string>)
    ensures forall i :: 0 <= i < |parts| ==>
      (IsBlankPart(MapReader, parts[i]) <==> IsBlankPart(DictReader, parts[i]) && !StartsWithEquals(parts[i]))
  {
    hide Key;
    forall i | 0 <= i < |parts|
      ensures IsBlankPart(MapReader, parts[i]) <==> IsBlankPart(DictReader, parts[i]) && !StartsWithEquals(parts[i])
    {
      assert parts[i] != [] ==> (Cut(parts[i]) == 0 <==> parts[i][0] == '=');
    }
  }

  /** When a part starts with `=`, only the Python reader takes it. */
  lemma PythonTakesEmptyKey()
    ensures Parse(DictReader, "=x") == map["" := "x"] && Parse(MapReader, "=x") == map[]
  {
    hide Format, LastWins;
    OnePair(Pair("", "x"));
    assert "" + "=" + "x" == "=x";
    RoundTrip(DictReader, [Pair("", "x")]);
    OnePart("=x");
  }

  lemma OnePart(part: string)
    requires ';' !in part && !Takes(MapReader, part)
    ensures Parse(MapReader, part) == map[]
  {
    hide Takes;
    SplitWithout(part, ';');
    assert [part][..0] == [];
  }
}
