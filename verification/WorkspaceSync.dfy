/** What a run of the sandbox hands back: the new and changed files of its work
    directory, found by comparing content digests and collected under three caps. */
module WorkspaceSync {
  import opened Strings
  import opened SandboxPaths

  type Bytes = seq<bv8>

  /** A name the walk finds, so no symbolic link and nothing in a directory called `.git`: its readable
      content, and whether it is a regular file. */
  datatype Node = Node(content: Bytes, regular: bool)

  type Directory = map<string, Node>

  datatype OutFile = OutFile(name: string, content: Bytes)

  /** The lines added to stderr for what is not handed back. */
  datatype Note = TooBig(name: string, size: nat) | TotalFull(name: string) | TooMany(name: string)

  const MAX_OUTPUT_FILES := 400
  const MAX_OUTPUT_FILE := 8 * 1024 * 1024
  const MAX_OUTPUT_TOTAL := 64 * 1024 * 1024

  predicate IsScript(name: string) {
    name == "__potion_main__.py" || name == "__potion_main__.sh"
  }

  /** Digests by name; `sha` stands for SHA-256. */
  function Snapshot(dir: Directory, sha: Bytes -> string): map<string, string> {
    map name | name in dir :: sha(dir[name].content)
  }

  /** No file changed without its digest changing. */
  ghost predicate NoCollision(before: Directory, after: Directory, sha: Bytes -> string) {
    forall name :: name in before && name in after && sha(before[name].content) == sha(after[name].content) ==>
      before[name].content == after[name].content
  }

  predicate Differs(name: string, before: map<string, string>, after: map<string, string>)
    requires name in after
  {
    !IsScript(name) && !(name in before && before[name] == after[name])
  }

  ghost predicate Distinct(s: seq<string>) {
    forall i, j :: 0 <= i < j < |s| ==> s[i] != s[j]
  }

  /** The produced names: `order` is the order in which the dictionary of the second snapshot lists its names. */
  method FindProduced(before: map<string, string>, after: map<string, string>, order: seq<string>)
    returns (produced: seq<string>)
    requires forall name :: name in order <==> name in after
    requires Distinct(order)
    ensures Sorted(produced)
    ensures Distinct(produced)
    ensures forall name :: name in produced <==>
      && name in after && name != "__potion_main__.py" && name != "__potion_main__.sh"
      && !(name in before && before[name] == after[name])
  {
    var found: seq<string> := [];
    for k := 0 to |order|
      invariant forall name :: name in found <==> name in order[..k] && Differs(name, before, after)
      invariant Distinct(found)
    {
      assert order[..k + 1] == order[..k] + [order[k]];
      if Differs(order[k], before, after) {
        found := found + [order[k]];
      }
    }
    assert order[..|order|] == order;
    produced := Sort(found);
    SortSorted(found);
    SortedKeepsDistinct(found);
    forall name ensures name in produced <==> name in after && Differs(name, before, after) {
      SortMembers(found, name);
    }
  }

  lemma SortMembers(s: seq<string>, x: string)
    ensures x in Sort(s) <==> x in s
  {
    assert x in Sort(s) <==> x in multiset(Sort(s));
    assert x in s <==> x in multiset(s);
  }

  lemma {:induction false} DistinctCounts(s: seq<string>)
    requires Distinct(s)
    ensures forall x :: multiset(s)[x] <= 1
  {
    if s != [] {
      DistinctCounts(s[1..]);
      assert s == [s[0]] + s[1..];
      assert s[0] !in s[1..];
    }
  }

  lemma SortedKeepsDistinct(s: seq<string>)
    requires Distinct(s)
    ensures Distinct(Sort(s))
  {
    DistinctCounts(s);
    var t := Sort(s);
    forall i, j | 0 <= i < j < |t| ensures t[i] != t[j] {
      assert t == t[..j] + t[j..];
      assert t[i] in t[..j] && t[j] in t[j..];
      assert multiset(t)[t[i]] == multiset(t[..j])[t[i]] + multiset(t[j..])[t[i]];
    }
  }

  // ----- collecting -----

  datatype Fate = Emitted | Skipped | OverSize | OverTotal | OverCount

  function Total(files: seq<OutFile>): nat {
    if files == [] then 0 else Total(files[..|files| - 1]) + |files[|files| - 1].content|
  }

  /** What becomes of a produced name once `files` have been handed back. */
  function Decide(after: Directory, name: string, files: seq<OutFile>): Fate
    requires name in after
  {
    var size := |after[name].content|;
    if !after[name].regular || !Accepted(name) then Skipped
    else if size > MAX_OUTPUT_FILE then OverSize
    else if Total(files) + size > MAX_OUTPUT_TOTAL then OverTotal
    else if |files| >= MAX_OUTPUT_FILES then OverCount
    else Emitted
  }

  function FilesOf(after: Directory, produced: seq<string>): (files: seq<OutFile>)
    requires forall i :: 0 <= i < |produced| ==> produced[i] in after
  {
    if produced == [] then []
    else
      var name, files := produced[|produced| - 1], FilesOf(after, produced[..|produced| - 1]);
      if Decide(after, name, files).Emitted? then files + [OutFile(name, after[name].content)] else files
  }

  function FateOf(after: Directory, produced: seq<string>, i: nat): Fate
    requires forall j :: 0 <= j < |produced| ==> produced[j] in after
    requires i < |produced|
  {
    Decide(after, produced[i], FilesOf(after, produced[..i]))
  }

  function NoteOf(after: Directory, name: string, fate: Fate): seq<Note>
    requires name in after
  {
    match fate
    case Emitted => []
    case Skipped => []
    case OverSize => [TooBig(name, |after[name].content|)]
    case OverTotal => [TotalFull(name)]
    case OverCount => [TooMany(name)]
  }

  function NotesOf(after: Directory, produced: seq<string>): seq<Note>
    requires forall i :: 0 <= i < |produced| ==> produced[i] in after
  {
    if produced == [] then []
    else
      var n := |produced| - 1;
      NotesOf(after, produced[..n]) + NoteOf(after, produced[n], FateOf(after, produced, n))
  }

  lemma NothingCollected(after: Directory, produced: seq<string>)
    ensures FilesOf(after, produced[..0]) == [] && NotesOf(after, produced[..0]) == []
  {
  }

  /** What one more name adds to the files and the notes. */
  lemma CollectStep(after: Directory, produced: seq<string>, k: nat)
    requires k < |produced| && forall i :: 0 <= i < |produced| ==> produced[i] in after
    ensures var name, files, notes := produced[k], FilesOf(after, produced[..k]), NotesOf(after, produced[..k]);
      var fate := Decide(after, name, files);
      && FilesOf(after, produced[..k + 1]) == (if fate.Emitted? then files + [OutFile(name, after[name].content)] else files)
      && NotesOf(after, produced[..k + 1]) == notes + NoteOf(after, name, fate)
  {
    hide Decide;
    assert produced[..k + 1][..k] == produced[..k];
  }

  /** The collecting loop of `run_exec`. */
  method Collect(after: Directory, produced: seq<string>) returns (outFiles: seq<OutFile>, notes: seq<Note>)
    requires forall i :: 0 <= i < |produced| ==> produced[i] in after
    ensures outFiles == FilesOf(after, produced) && notes == NotesOf(after, produced)
    ensures |outFiles| <= MAX_OUTPUT_FILES && Total(outFiles) <= MAX_OUTPUT_TOTAL
    ensures forall i :: 0 <= i < |outFiles| ==> |outFiles[i].content| <= MAX_OUTPUT_FILE
  {
    hide Accepted, FilesOf, NotesOf, FateOf;
    outFiles, notes := [], [];
    NothingCollected(after, produced);
    var totalOut := 0;
    for k := 0 to |produced|
      invariant outFiles == FilesOf(after, produced[..k]) && notes == NotesOf(after, produced[..k])
      invariant totalOut == Total(outFiles) <= MAX_OUTPUT_TOTAL && |outFiles| <= MAX_OUTPUT_FILES
      invariant forall i :: 0 <= i < |outFiles| ==> |outFiles[i].content| <= MAX_OUTPUT_FILE
    {
      var name := produced[k];
      CollectStep(after, produced, k);
      if !after[name].regular || !Accepted(name) {
        continue;
      }
      var size := |after[name].content|;
      if size > MAX_OUTPUT_FILE {
        notes := notes + [TooBig(name, size)];
        continue;
      }
      if totalOut + size > MAX_OUTPUT_TOTAL {
        notes := notes + [TotalFull(name)];
        continue;
      }
      if |outFiles| >= MAX_OUTPUT_FILES {
        notes := notes + [TooMany(name)];
        continue;
      }
      assert (outFiles + [OutFile(name, after[name].content)])[..|outFiles|] == outFiles;
      outFiles := outFiles + [OutFile(name, after[name].content)];
      totalOut := totalOut + size;
    }
    assert produced[..|produced|] == produced;
  }

  // ----- what the caller can rebuild -----

  predicate IsEmitted(after: Directory, produced: seq<string>, name: string)
    requires forall i :: 0 <= i < |produced| ==> produced[i] in after
  {
    exists i | 0 <= i < |FilesOf(after, produced)| :: FilesOf(after, produced)[i].name == name
  }

  predicate IsNoted(notes: seq<Note>, name: string) {
    exists i | 0 <= i < |notes| :: notes[i].name == name
  }

  /** A name is handed back, with its content, exactly when its fate is to be emitted. */
  lemma {:induction false} EmittedIffFate(after: Directory, produced: seq<string>)
    requires forall i :: 0 <= i < |produced| ==> produced[i] in after
    ensures forall f :: f in FilesOf(after, produced) ==> f.name in produced && f.content == after[f.name].content
    ensures Distinct(produced) ==>
      forall i :: 0 <= i < |produced| ==>
        (IsEmitted(after, produced, produced[i]) <==> FateOf(after, produced, i).Emitted?)
    decreases |produced|
  {
    hide Decide;
    if produced != [] {
      var n := |produced| - 1;
      var before := produced[..n];
      EmittedIffFate(after, before);
      var files, files' := FilesOf(after, before), FilesOf(after, produced);
      forall i | 0 <= i < n ensures FateOf(after, produced, i) == FateOf(after, before, i) {
        assert produced[..i] == before[..i];
      }
      if Distinct(produced) {
        forall i | 0 <= i < |produced|
          ensures IsEmitted(after, produced, produced[i]) <==> FateOf(after, produced, i).Emitted?
        {
          EmittedGrows(after, produced, produced[i]);
          if i == n {
            assert produced[i] !in before;
            NotEmitted(after, before, produced[i]);
          }
        }
      }
    }
  }

  lemma NotEmitted(after: Directory, produced: seq<string>, name: string)
    requires forall i :: 0 <= i < |produced| ==> produced[i] in after
    requires (forall f :: f in FilesOf(after, produced) ==> f.name in produced) && name !in produced
    ensures !IsEmitted(after, produced, name)
  {
    var files := FilesOf(after, produced);
    assert forall k :: 0 <= k < |files| ==> files[k] in files;
  }

  lemma EmittedGrows(after: Directory, produced: seq<string>, name: string)
    requires produced != [] && forall i :: 0 <= i < |produced| ==> produced[i] in after
    ensures var n := |produced| - 1; var before := produced[..n];
      IsEmitted(after, produced, name) <==>
        IsEmitted(after, before, name) || (FateOf(after, produced, n).Emitted? && name == produced[n])
  {
    hide Decide;
    var n := |produced| - 1;
    var files, files' := FilesOf(after, produced[..n]), FilesOf(after, produced);
    if IsEmitted(after, produced[..n], name) {
      var k :| 0 <= k < |files| && files[k].name == name;
      assert files'[k] == files[k];
    }
    if FateOf(after, produced, n).Emitted? {
      assert files'[|files|] == OutFile(produced[n], after[produced[n]].content);
    }
  }

  predicate IsCap(fate: Fate) {
    fate.OverSize? || fate.OverTotal? || fate.OverCount?
  }

  lemma {:induction false} NotedNames(after: Directory, produced: seq<string>)
    requires forall i :: 0 <= i < |produced| ==> produced[i] in after
    ensures forall n :: n in NotesOf(after, produced) ==> n.name in produced
    decreases |produced|
  {
    hide FateOf;
    if produced != [] {
      NotedNames(after, produced[..|produced| - 1]);
    }
  }

  /** A name is noted exactly when its fate is one of the three caps. */
  lemma {:induction false} NotedIffCapped(after: Directory, produced: seq<string>, i: nat)
    requires Distinct(produced) && (forall k :: 0 <= k < |produced| ==> produced[k] in after) && i < |produced|
    ensures IsNoted(NotesOf(after, produced), produced[i]) <==> IsCap(FateOf(after, produced, i))
    decreases |produced|
  {
    hide *;
    var n := |produced| - 1;
    var before := produced[..n];
    NotedGrows(after, produced, produced[i]);
    PrefixDistinct(produced);
    if i < n {
      FateInPrefix(after, produced, i);
      NotedIffCapped(after, before, i);
    } else {
      NotedNames(after, before);
      NotNoted(NotesOf(after, before), before, produced[i]);
    }
  }

  lemma PrefixDistinct(produced: seq<string>)
    requires produced != [] && Distinct(produced)
    ensures var n := |produced| - 1;
      Distinct(produced[..n]) && produced[n] !in produced[..n] && forall i :: 0 <= i < n ==> produced[i] != produced[n]
  {
  }

  lemma FateInPrefix(after: Directory, produced: seq<string>, i: nat)
    requires (forall k :: 0 <= k < |produced| ==> produced[k] in after) && i < |produced| - 1
    ensures FateOf(after, produced, i) == FateOf(after, produced[..|produced| - 1], i)
  {
    hide Decide;
    assert produced[..i] == produced[..|produced| - 1][..i];
  }

  lemma NotNoted(notes: seq<Note>, names: seq<string>, name: string)
    requires (forall n :: n in notes ==> n.name in names) && name !in names
    ensures !IsNoted(notes, name)
  {
    assert forall k :: 0 <= k < |notes| ==> notes[k] in notes;
  }

  lemma NotedGrows(after: Directory, produced: seq<string>, name: string)
    requires produced != [] && forall i :: 0 <= i < |produced| ==> produced[i] in after
    ensures var n := |produced| - 1;
      IsNoted(NotesOf(after, produced), name) <==>
        IsNoted(NotesOf(after, produced[..n]), name) ||
        (IsCap(FateOf(after, produced, n)) && name == produced[n])
  {
    hide Decide;
    var n := |produced| - 1;
    var notes, notes' := NotesOf(after, produced[..n]), NotesOf(after, produced);
    if IsNoted(notes, name) {
      var k :| 0 <= k < |notes| && notes[k].name == name;
      assert notes'[k] == notes[k];
    }
    if IsCap(FateOf(after, produced, n)) {
      assert notes'[|notes|].name == produced[n];
    }
  }

  /** Every produced name is handed back, or noted on stderr, or silently skipped because it is no
      regular file or has no acceptable name; and never two of these. */
  lemma FatesPartition(after: Directory, produced: seq<string>, i: nat)
    requires Distinct(produced) && (forall k :: 0 <= k < |produced| ==> produced[k] in after) && i < |produced|
    ensures var name := produced[i];
      var emitted, noted := IsEmitted(after, produced, name), IsNoted(NotesOf(after, produced), name);
      var skipped := !after[name].regular || !Accepted(name);
      && (emitted || noted || skipped)
      && !(emitted && noted) && !(emitted && skipped) && !(noted && skipped)
  {
    EmittedIffFate(after, produced);
    NotedIffCapped(after, produced, i);
    hide FilesOf, NotesOf, IsEmitted, IsNoted, Accepted;
  }

  /** A note about a name is there exactly when its fate calls for it. */
  lemma {:induction false} NoteIffFate(after: Directory, produced: seq<string>, i: nat, note: Note)
    requires Distinct(produced) && (forall k :: 0 <= k < |produced| ==> produced[k] in after) && i < |produced|
    requires note.name == produced[i]
    ensures note in NotesOf(after, produced) <==> note in NoteOf(after, produced[i], FateOf(after, produced, i))
    decreases |produced|
  {
    hide *;
    var n := |produced| - 1;
    PrefixDistinct(produced);
    NotesNext(after, produced, note);
    if i < n {
      FateInPrefix(after, produced, i);
      NoteNames(after, produced[n], FateOf(after, produced, n), note);
      NoteIffFate(after, produced[..n], i, note);
    } else {
      NotedNames(after, produced[..n]);
    }
  }

  lemma NotesNext(after: Directory, produced: seq<string>, note: Note)
    requires produced != [] && forall k :: 0 <= k < |produced| ==> produced[k] in after
    ensures var n := |produced| - 1;
      note in NotesOf(after, produced) <==>
        note in NotesOf(after, produced[..n]) || note in NoteOf(after, produced[n], FateOf(after, produced, n))
  {
    hide FateOf, NoteOf;
  }

  lemma NoteNames(after: Directory, name: string, fate: Fate, note: Note)
    requires name in after
    ensures note in NoteOf(after, name, fate) ==> note.name == name
  {
  }

  /** What becomes of each name, in numbers: `files` is what was handed back before it. */
  lemma FatesAre(after: Directory, produced: seq<string>, i: nat)
    requires Distinct(produced) && (forall k :: 0 <= k < |produced| ==> produced[k] in after) && i < |produced|
    ensures var name, files, notes := produced[i], FilesOf(after, produced[..i]), NotesOf(after, produced);
      var size, named := |after[name].content|, after[name].regular && Accepted(name);
      && (IsEmitted(after, produced, name) <==>
            named && size <= 8388608 && Total(files) + size <= 67108864 && |files| < 400)
      && (TooBig(name, size) in notes <==> named && size > 8388608)
      && (TotalFull(name) in notes <==> named && size <= 8388608 && Total(files) + size > 67108864)
      && (TooMany(name) in notes <==>
            named && size <= 8388608 && Total(files) + size <= 67108864 && |files| >= 400)
  {
    var name := produced[i];
    EmittedIffFate(after, produced);
    NoteIffFate(after, produced, i, TooBig(name, |after[name].content|));
    NoteIffFate(after, produced, i, TotalFull(name));
    NoteIffFate(after, produced, i, TooMany(name));
    hide FilesOf, NotesOf, IsEmitted, Accepted, Total;
  }

  lemma {:induction false} TotalSplit(files: seq<OutFile>, f: OutFile)
    ensures Total(files + [f]) == Total(files) + |f.content|
  {
    assert (files + [f])[..|files|] == files;
  }

  function Sizes(after: Directory, produced: seq<string>): nat
    requires forall i :: 0 <= i < |produced| ==> produced[i] in after
  {
    if produced == [] then 0
    else Sizes(after, produced[..|produced| - 1]) + |after[produced[|produced| - 1]].content|
  }

  /** A name that the caps let through on their own. */
  predicate IsSmall(after: Directory, name: string) {
    name in after && after[name].regular && Accepted(name) && |after[name].content| <= MAX_OUTPUT_FILE
  }

  lemma SmallIsEmitted(after: Directory, name: string, files: seq<OutFile>)
    requires IsSmall(after, name) && |files| < MAX_OUTPUT_FILES
    requires Total(files) + |after[name].content| <= MAX_OUTPUT_TOTAL
    ensures Decide(after, name, files) == Emitted
  {
    hide Accepted;
  }

  /** Every name of a list with its content, in order. */
  function AllFiles(after: Directory, produced: seq<string>): (files: seq<OutFile>)
    requires forall i :: 0 <= i < |produced| ==> produced[i] in after
    ensures |files| == |produced|
  {
    if produced == [] then []
    else
      var name := produced[|produced| - 1];
      AllFiles(after, produced[..|produced| - 1]) + [OutFile(name, after[name].content)]
  }

  /** When everything that was produced fits the caps, everything is handed back. */
  lemma {:induction false} NothingDroppedWhenAllFits(after: Directory, produced: seq<string>)
    requires forall i :: 0 <= i < |produced| ==> produced[i] in after && IsSmall(after, produced[i])
    requires |produced| <= MAX_OUTPUT_FILES && Sizes(after, produced) <= MAX_OUTPUT_TOTAL
    ensures NotesOf(after, produced) == [] && FilesOf(after, produced) == AllFiles(after, produced)
    ensures Total(FilesOf(after, produced)) == Sizes(after, produced)
    decreases |produced|
  {
    hide Decide, IsSmall;
    if produced != [] {
      NothingDroppedWhenAllFits(after, produced[..|produced| - 1]);
      NothingDroppedNext(after, produced);
    }
  }

  lemma NothingDroppedNext(after: Directory, produced: seq<string>)
    requires produced != [] && forall i :: 0 <= i < |produced| ==> produced[i] in after
    requires IsSmall(after, produced[|produced| - 1])
    requires |produced| <= MAX_OUTPUT_FILES && Sizes(after, produced) <= MAX_OUTPUT_TOTAL
    requires var before := produced[..|produced| - 1];
      NotesOf(after, before) == [] && FilesOf(after, before) == AllFiles(after, before)
      && Total(FilesOf(after, before)) == Sizes(after, before)
    ensures NotesOf(after, produced) == [] && FilesOf(after, produced) == AllFiles(after, produced)
    ensures Total(FilesOf(after, produced)) == Sizes(after, produced)
  {
    hide FilesOf, NotesOf, Total, Decide, IsSmall;
    var n := |produced| - 1;
    assert produced[..n + 1] == produced;
    TotalSplit(FilesOf(after, produced[..n]), OutFile(produced[n], after[produced[n]].content));
    CollectStep(after, produced, n);
    SmallIsEmitted(after, produced[n], FilesOf(after, produced[..n]));
  }

  /** The files of a directory, the two scripts left out. */
  function Files(dir: Directory): map<string, Bytes> {
    map name | name in dir && !IsScript(name) :: dir[name].content
  }

  /** What the caller holds after writing the returned files over the ones it sent. */
  function Overlay(before: Directory, files: seq<OutFile>): map<string, Bytes> {
    if files == [] then Files(before)
    else
      var n := |files| - 1;
      Overlay(before, files[..n])[files[n].name := files[n].content]
  }

  lemma {:induction false} OverlayAt(before: Directory, after: Directory, files: seq<OutFile>, name: string)
    requires forall f :: f in files ==> f.name in after && f.content == after[f.name].content
    ensures var emitted := exists i :: 0 <= i < |files| && files[i].name == name;
      && (name in Overlay(before, files) <==> emitted || name in Files(before))
      && (emitted ==> Overlay(before, files)[name] == after[name].content)
      && (!emitted && name in Files(before) ==> Overlay(before, files)[name] == Files(before)[name])
    decreases |files|
  {
    hide Files;
    if files != [] {
      var n := |files| - 1;
      OverlayAt(before, after, files[..n], name);
      if i :| 0 <= i < |files| && files[i].name == name {
        if i < n {
          assert files[..n][i].name == name;
        }
      }
    }
  }

  /** `produced` is what `FindProduced` finds between the two directories. */
  ghost predicate AreProduced(before: Directory, after: Directory, sha: Bytes -> string, produced: seq<string>) {
    && Distinct(produced)
    && forall name :: name in produced <==> name in after && Differs(name, Snapshot(before, sha), Snapshot(after, sha))
  }

  lemma ProducedAreThere(before: Directory, after: Directory, sha: Bytes -> string, produced: seq<string>)
    requires AreProduced(before, after, sha, produced)
    ensures Distinct(produced) && forall i :: 0 <= i < |produced| ==> produced[i] in after
  {
  }

  /** Produced is exactly new or changed. */
  lemma ProducedIffChanged(before: Directory, after: Directory, sha: Bytes -> string, produced: seq<string>, name: string)
    requires AreProduced(before, after, sha, produced) && NoCollision(before, after, sha)
    ensures name in produced <==>
      && name in after && name != "__potion_main__.py" && name != "__potion_main__.sh"
      && !(name in before && before[name].content == after[name].content)
  {
  }

  lemma ProducedOfFiles(before: Directory, after: Directory, sha: Bytes -> string, produced: seq<string>, name: string)
    requires AreProduced(before, after, sha, produced) && NoCollision(before, after, sha)
    ensures name in produced <==> name in Files(after) && !(name in Files(before) && Files(before)[name] == Files(after)[name])
  {
  }

  /** At every path that was handed back or did not change, what the caller holds is what the run left. */
  lemma OverlayAgrees(before: Directory, after: Directory, sha: Bytes -> string, produced: seq<string>, name: string)
    requires AreProduced(before, after, sha, produced) && NoCollision(before, after, sha)
    requires name in Files(after) && (name in produced ==> IsEmitted(after, produced, name))
    ensures name in Overlay(before, FilesOf(after, produced))
    ensures Overlay(before, FilesOf(after, produced))[name] == Files(after)[name]
  {
    EmittedIffFate(after, produced);
    OverlayAt(before, after, FilesOf(after, produced), name);
    ProducedOfFiles(before, after, sha, produced, name);
    hide Overlay, FilesOf, NoCollision, Snapshot;
  }

  ghost predicate AllEmitted(after: Directory, produced: seq<string>)
    requires forall i :: 0 <= i < |produced| ==> produced[i] in after
  {
    forall i :: 0 <= i < |produced| ==> IsEmitted(after, produced, produced[i])
  }

  /** Every name is acceptable and every file regular, and sizes and number fit the three caps. */
  predicate FitsCaps(after: Directory, produced: seq<string>)
    requires forall i :: 0 <= i < |produced| ==> produced[i] in after
  {
    && (forall i :: 0 <= i < |produced| ==> IsSmall(after, produced[i]))
    && |produced| <= MAX_OUTPUT_FILES && Sizes(after, produced) <= MAX_OUTPUT_TOTAL
  }

  lemma {:induction false} AllFilesAt(after: Directory, produced: seq<string>, i: nat)
    requires (forall k :: 0 <= k < |produced| ==> produced[k] in after) && i < |produced|
    ensures AllFiles(after, produced)[i] == OutFile(produced[i], after[produced[i]].content)
    decreases |produced|
  {
    var n := |produced| - 1;
    if i < n {
      AllFilesAt(after, produced[..n], i);
    }
  }

  lemma FittingIsEmitted(after: Directory, produced: seq<string>)
    requires (forall i :: 0 <= i < |produced| ==> produced[i] in after) && FitsCaps(after, produced)
    ensures AllEmitted(after, produced)
  {
    NothingDroppedWhenAllFits(after, produced);
    hide FilesOf, AllFiles, FitsCaps;
    forall i | 0 <= i < |produced| ensures IsEmitted(after, produced, produced[i]) {
      AllFilesAt(after, produced, i);
    }
  }

  /** What an emitted last name says of the caps. */
  lemma LastEmittedFits(after: Directory, produced: seq<string>)
    requires produced != [] && forall i :: 0 <= i < |produced| ==> produced[i] in after
    requires FateOf(after, produced, |produced| - 1) == Emitted
    requires var before := produced[..|produced| - 1];
      |FilesOf(after, before)| == |before| && Total(FilesOf(after, before)) == Sizes(after, before)
    ensures IsSmall(after, produced[|produced| - 1])
    ensures |produced| <= MAX_OUTPUT_FILES && Sizes(after, produced) <= MAX_OUTPUT_TOTAL
    ensures |FilesOf(after, produced)| == |produced| && Total(FilesOf(after, produced)) == Sizes(after, produced)
  {
    hide FilesOf, NotesOf, Accepted, Total;
    var n := |produced| - 1;
    assert produced[..n + 1] == produced;
    TotalSplit(FilesOf(after, produced[..n]), OutFile(produced[n], after[produced[n]].content));
    CollectStep(after, produced, n);
  }

  lemma {:induction false} EmittedFits(after: Directory, produced: seq<string>)
    requires forall i :: 0 <= i < |produced| ==> produced[i] in after
    requires forall i :: 0 <= i < |produced| ==> FateOf(after, produced, i) == Emitted
    ensures FitsCaps(after, produced)
    ensures |FilesOf(after, produced)| == |produced| && Total(FilesOf(after, produced)) == Sizes(after, produced)
    decreases |produced|
  {
    hide FateOf, IsSmall;
    if produced != [] {
      hide FilesOf, Total, Sizes, FitsCaps;
      var n := |produced| - 1;
      forall i | 0 <= i < n ensures FateOf(after, produced[..n], i) == Emitted {
        FateInPrefix(after, produced, i);
      }
      EmittedFits(after, produced[..n]);
      LastEmittedFits(after, produced);
      FitsOneMore(after, produced);
    }
  }

  lemma FitsOneMore(after: Directory, produced: seq<string>)
    requires produced != [] && forall i :: 0 <= i < |produced| ==> produced[i] in after
    requires FitsCaps(after, produced[..|produced| - 1]) && IsSmall(after, produced[|produced| - 1])
    requires |produced| <= MAX_OUTPUT_FILES && Sizes(after, produced) <= MAX_OUTPUT_TOTAL
    ensures FitsCaps(after, produced)
  {
    hide IsSmall, Sizes;
    assert forall i :: 0 <= i < |produced| - 1 ==> produced[i] == produced[..|produced| - 1][i];
  }

  /** Everything that was produced is handed back exactly when it fits the caps, name by name and together. */
  lemma AllEmittedIff(after: Directory, produced: seq<string>)
    requires Distinct(produced) && forall i :: 0 <= i < |produced| ==> produced[i] in after
    ensures AllEmitted(after, produced) <==> FitsCaps(after, produced)
  {
    if FitsCaps(after, produced) {
      FittingIsEmitted(after, produced);
    }
    if AllEmitted(after, produced) {
      EmittedIffFate(after, produced);
      hide IsEmitted, FateOf, FilesOf, FitsCaps;
      EmittedFits(after, produced);
    }
  }

  ghost predicate NothingDeleted(before: Directory, after: Directory) {
    forall name :: name in Files(before) ==> name in Files(after)
  }

  lemma OverlayHolds(before: Directory, after: Directory, sha: Bytes -> string, produced: seq<string>, name: string)
    requires AreProduced(before, after, sha, produced)
    ensures name in Overlay(before, FilesOf(after, produced)) <==> IsEmitted(after, produced, name) || name in Files(before)
    ensures !IsEmitted(after, produced, name) && name in Files(before) ==>
      Overlay(before, FilesOf(after, produced))[name] == Files(before)[name]
  {
    EmittedIffFate(after, produced);
    OverlayAt(before, after, FilesOf(after, produced), name);
    hide Overlay, FilesOf, Snapshot, Files;
  }

  /** The caller ends up with exactly the run's files when, and only when, the run deleted none of the
      files it was sent and what it produced fits the caps: a deletion is never reported. */
  lemma OverlayIsAfterIff(before: Directory, after: Directory, sha: Bytes -> string, produced: seq<string>)
    requires AreProduced(before, after, sha, produced) && NoCollision(before, after, sha)
    ensures forall i :: 0 <= i < |produced| ==> produced[i] in after
    ensures Overlay(before, FilesOf(after, produced)) == Files(after) <==>
      NothingDeleted(before, after) && FitsCaps(after, produced)
  {
    ProducedAreThere(before, after, sha, produced);
    hide *;
    AllEmittedIff(after, produced);
    var overlay := Overlay(before, FilesOf(after, produced));
    if NothingDeleted(before, after) && AllEmitted(after, produced) {
      OverlayIsAfter(before, after, sha, produced);
    }
    if overlay == Files(after) {
      OverlayComplete(before, after, sha, produced);
    }
  }

  lemma OverlayIsAfter(before: Directory, after: Directory, sha: Bytes -> string, produced: seq<string>)
    requires AreProduced(before, after, sha, produced) && NoCollision(before, after, sha)
    requires NothingDeleted(before, after) && AllEmitted(after, produced)
    ensures Overlay(before, FilesOf(after, produced)) == Files(after)
  {
    ProducedAreThere(before, after, sha, produced);
    hide Overlay, FilesOf, Snapshot, Files, IsEmitted, NoCollision, AreProduced;
    var overlay := Overlay(before, FilesOf(after, produced));
    forall name ensures name in overlay <==> name in Files(after) {
      OverlayHolds(before, after, sha, produced, name);
      if IsEmitted(after, produced, name) {
        EmittedIsAfter(before, after, sha, produced, name);
      }
      ProducedOfFiles(before, after, sha, produced, name);
    }
    forall name | name in Files(after) ensures overlay[name] == Files(after)[name] {
      OverlayAgrees(before, after, sha, produced, name);
    }
  }

  lemma OverlayComplete(before: Directory, after: Directory, sha: Bytes -> string, produced: seq<string>)
    requires AreProduced(before, after, sha, produced) && NoCollision(before, after, sha)
    requires Overlay(before, FilesOf(after, produced)) == Files(after)
    ensures NothingDeleted(before, after) && AllEmitted(after, produced)
  {
    ProducedAreThere(before, after, sha, produced);
    hide Overlay, FilesOf, Snapshot, Files, IsEmitted, NoCollision, AreProduced;
    forall name | name in Files(before) ensures name in Files(after) {
      OverlayHolds(before, after, sha, produced, name);
    }
    forall i | 0 <= i < |produced| ensures IsEmitted(after, produced, produced[i]) {
      OverlayHolds(before, after, sha, produced, produced[i]);
      ProducedOfFiles(before, after, sha, produced, produced[i]);
    }
  }

  lemma EmittedIsAfter(before: Directory, after: Directory, sha: Bytes -> string, produced: seq<string>, name: string)
    requires AreProduced(before, after, sha, produced) && IsEmitted(after, produced, name)
    ensures name in Files(after)
  {
    EmittedIffFate(after, produced);
    var files := FilesOf(after, produced);
    var i :| 0 <= i < |files| && files[i].name == name;
    assert files[i] in files;
  }
}
