/** Which relative names the sandbox accepts, and where they lead. */
module SandboxPaths {
  import opened Text
  import opened Spelling
  import opened Strings
  import opened Wrappers

  predicate IsSegmentChar(c: char) {
    IsLetter(c) || IsDigit(c) || c == '.' || c == '_' || c == '-'
  }

  /** `re.match("^[A-Za-z0-9._-]{1,120}$", seg)`: in Python `$` also matches before a final newline. */
  predicate IsSegment(seg: string) {
    var body := DropNewline(seg);
    1 <= |body| <= 120 && forall i :: 0 <= i < |body| ==> IsSegmentChar(body[i])
  }

  predicate IsAllowedSegment(seg: string) {
    seg !in {".", "..", ".git"} && IsSegment(seg)
  }

  /** `safe_relpath`; `None` as an argument stands for a name that is not a string. */
  function SafeRelpath(name: Option<string>): Option<string> {
    if name.None? || name.value == "" || |name.value| > 240 then None
    else
      var n := name.value;
      if n[0] == '/' || n[|n| - 1] == '/' || '\\' in n || '\0' in n then None
      else
        var segments := Split(n, '/');
        if |segments| > 12 then None
        else if exists i | 0 <= i < |segments| :: !IsAllowedSegment(segments[i]) then None
        else name
  }

  predicate Accepted(n: string) {
    SafeRelpath(Some(n)) == Some(n)
  }

  lemma {:induction false} CharOfSegment(s: string, d: char, i: nat)
    requires i < |s| && s[i] != d
    ensures exists k :: 0 <= k < |Split(s, d)| && s[i] in Split(s, d)[k]
  {
    var rest := Split(s[1..], d);
    if i == 0 {
      assert s[0] in Split(s, d)[0];
    } else {
      CharOfSegment(s[1..], d, i - 1);
      var k :| 0 <= k < |rest| && s[i] in rest[k];
      if s[0] == d {
        assert Split(s, d)[k + 1] == rest[k];
      } else if k == 0 {
        assert s[i] in Split(s, d)[0];
      } else {
        assert Split(s, d)[k] == rest[k];
      }
    }
  }

  lemma SegmentChars(seg: string, c: char)
    requires IsSegment(seg) && c in seg
    ensures IsSegmentChar(c) || c == '\n'
  {
    var body := if seg[|seg| - 1] == '\n' then seg[..|seg| - 1] else seg;
    var i :| 0 <= i < |seg| && seg[i] == c;
    if i < |body| {
      assert body[i] == c;
    }
  }

  /** One to 120 letters, digits, dots, underscores and dashes, a final newline let pass by the `$`; and
      none of the three refused names. */
  ghost predicate IsSegmentText(seg: string) {
    seg != "." && seg != ".." && seg != ".git" && exists body :: IsSegmentBody(seg, body)
  }

  predicate IsSegmentBody(seg: string, body: string) {
    (seg == body || seg == body + "\n") && 1 <= |body| <= 120 && MadeOf(body, UPPER + LOWER + DIGITS + "._-")
  }

  lemma SegmentBodySpelled(body: string)
    ensures (forall i :: 0 <= i < |body| ==> IsSegmentChar(body[i])) <==> MadeOf(body, UPPER + LOWER + DIGITS + "._-")
  {
    forall i | 0 <= i < |body| ensures IsSegmentChar(body[i]) <==> body[i] in UPPER + LOWER + DIGITS + "._-" {
      UpperSpelled(body[i]);
      LowerSpelled(body[i]);
      DigitSpelled(body[i]);
    }
    hide IsSegmentChar;
  }

  lemma SegmentIs(seg: string)
    ensures IsAllowedSegment(seg) <==> IsSegmentText(seg)
  {
    var body := DropNewline(seg);
    SegmentBodySpelled(body);
    assert IsSegment(seg) <==> 1 <= |body| <= 120 && MadeOf(body, UPPER + LOWER + DIGITS + "._-");
    assert seg == body || seg == body + "\n";
    hide IsSegment, IsSegmentChar, MadeOf;
    if IsSegment(seg) {
      assert IsSegmentBody(seg, body);
    }
    if b :| IsSegmentBody(seg, b) {
      NoNewlineBehind(b);
      StrippedOnce(seg, b);
    }
  }

  lemma StrippedOnce(seg: string, body: string)
    requires body != "" && body[|body| - 1] != '\n' && (seg == body || seg == body + "\n")
    ensures body == DropNewline(seg)
  {
  }

  lemma NoNewlineBehind(body: string)
    requires body != "" && MadeOf(body, UPPER + LOWER + DIGITS + "._-")
    ensures body[|body| - 1] != '\n'
  {
  }

  /** Acceptance is decided by the length and the segments alone: the tests for leading and trailing
      slashes, for backslashes and for NUL refuse nothing that the segment test lets through. */
  lemma AcceptedIff(n: string)
    ensures Accepted(n) <==>
      && |n| <= 240 && |Split(n, '/')| <= 12
      && forall i :: 0 <= i < |Split(n, '/')| ==> IsSegmentText(Split(n, '/')[i])
  {
    AcceptedBySegments(n);
    hide Accepted, IsAllowedSegment, IsSegmentText;
    forall i | 0 <= i < |Split(n, '/')| ensures IsAllowedSegment(Split(n, '/')[i]) <==> IsSegmentText(Split(n, '/')[i]) {
      SegmentIs(Split(n, '/')[i]);
    }
  }

  lemma EmptySegment()
    ensures Split("", '/') == [""] && !IsAllowedSegment("")
  {
  }

  lemma NoSlashAtEnd(n: string)
    requires IsAllowedSegment(Split(n, '/')[|Split(n, '/')| - 1])
    ensures n != "" && n[|n| - 1] != '/'
  {
    EmptySegment();
    hide IsAllowedSegment, Split;
    if n != "" && n[|n| - 1] == '/' {
      LastSegment(n);
    }
  }

  lemma NoSlashAtStart(n: string)
    requires n != "" && IsAllowedSegment(Split(n, '/')[0])
    ensures n[0] != '/'
  {
    EmptySegment();
    hide IsAllowedSegment;
  }

  lemma AcceptedBySegments(n: string)
    ensures Accepted(n) <==>
      && |n| <= 240 && |Split(n, '/')| <= 12
      && forall i :: 0 <= i < |Split(n, '/')| ==> IsAllowedSegment(Split(n, '/')[i])
  {
    EmptySegment();
    hide IsSegment, Split;
    var segments := Split(n, '/');
    if |n| <= 240 && |segments| <= 12 && forall i :: 0 <= i < |segments| ==> IsAllowedSegment(segments[i]) {
      assert IsAllowedSegment(segments[0]);
      forall c | c in n ensures c != '\\' && c != '\0' {
        var i :| 0 <= i < |n| && n[i] == c;
        if c != '/' {
          CharOfSegment(n, '/', i);
          var k :| 0 <= k < |segments| && c in segments[k];
          SegmentChars(segments[k], c);
        }
      }
      assert IsAllowedSegment(segments[|segments| - 1]);
      NoSlashAtEnd(n);
      NoSlashAtStart(n);
    }
  }

  lemma {:induction false} LastSegment(n: string)
    requires n != [] && n[|n| - 1] == '/'
    ensures Split(n, '/')[|Split(n, '/')| - 1] == "" && !IsAllowedSegment(Split(n, '/')[|Split(n, '/')| - 1])
  {
    if |n| > 1 {
      LastSegment(n[1..]);
    } else {
      assert n[1..] == [];
    }
  }

  // ----- resolution -----

  /** One step of path resolution on a stack of names. */
  function Enter(stack: seq<string>, seg: string): seq<string> {
    if seg == "" || seg == "." then stack
    else if seg == ".." then if stack == [] then [] else stack[..|stack| - 1]
    else stack + [seg]
  }

  /** The stacks that resolving `segments` from `stack` goes through, first to last. */
  function Walk(stack: seq<string>, segments: seq<string>): (stacks: seq<seq<string>>)
    ensures |stacks| == |segments| + 1 && stacks[0] == stack
    decreases |segments|
  {
    if segments == [] then [stack] else [stack] + Walk(Enter(stack, segments[0]), segments[1..])
  }

  /** Where `base/name` leads. */
  function Resolve(base: seq<string>, name: string): seq<string> {
    var segments := Split(name, '/');
    var start := if name != "" && name[0] == '/' then [] else base;
    Walk(start, segments)[|segments|]
  }

  lemma {:induction false} WalkDescends(stack: seq<string>, segments: seq<string>, i: nat)
    requires i <= |segments| && forall k :: 0 <= k < i ==> segments[k] !in {"", ".", ".."}
    ensures Walk(stack, segments)[i] == stack + segments[..i]
    decreases i
  {
    if i > 0 {
      assert Enter(stack, segments[0]) == stack + [segments[0]];
      hide Enter;
      WalkDescends(stack + [segments[0]], segments[1..], i - 1);
      assert segments[..i] == [segments[0]] + segments[1..][..i - 1];
    }
  }

  /** An accepted name leads, from every base, to the base followed by its 1 to 12 segments, and
      resolution never leaves the base on the way. */
  lemma AcceptedResolvesInside(base: seq<string>, n: string)
    requires Accepted(n)
    ensures 1 <= |Split(n, '/')| <= 12
    ensures Resolve(base, n) == base + Split(n, '/')
    ensures forall i :: 0 <= i <= |Split(n, '/')| ==> base <= Walk(base, Split(n, '/'))[i]
  {
    var segments := Split(n, '/');
    AcceptedBySegments(n);
    forall i | 0 <= i < |segments| ensures segments[i] !in {"", ".", ".."} {
      assert IsAllowedSegment(segments[i]);
    }
    forall i | 0 <= i <= |segments| ensures Walk(base, segments)[i] == base + segments[..i] {
      WalkDescends(base, segments, i);
    }
    assert segments[..|segments|] == segments;
  }

  /** Different accepted names lead to different places. */
  lemma AcceptedNamesDoNotAlias(base: seq<string>, a: string, b: string)
    requires Accepted(a) && Accepted(b) && Resolve(base, a) == Resolve(base, b)
    ensures a == b
  {
    AcceptedResolvesInside(base, a);
    AcceptedResolvesInside(base, b);
    assert Resolve(base, a)[|base|..] == Split(a, '/');
    assert Resolve(base, b)[|base|..] == Split(b, '/');
    JoinOfSplit(a, '/');
    JoinOfSplit(b, '/');
  }

  /** The absolute path of a stack. */
  function Render(stack: seq<string>): string {
    if stack == [] then "" else "/" + stack[0] + Render(stack[1..])
  }

  lemma {:induction false} RenderAppend(a: seq<string>, b: seq<string>)
    ensures Render(a + b) == Render(a) + Render(b)
  {
    if a == [] {
      assert a + b == b;
    } else {
      assert (a + b)[1..] == a[1..] + b;
      RenderAppend(a[1..], b);
    }
  }

  /** Without symbolic links the second check of `run_exec`, that the resolved path starts with the
      work directory and a slash, never refuses an accepted name. */
  lemma BeltNeverFires(workdir: seq<string>, n: string)
    requires Accepted(n)
    ensures Render(workdir) + "/" <= Render(Resolve(workdir, n))
  {
    AcceptedResolvesInside(workdir, n);
    var segments := Split(n, '/');
    hide Accepted, Resolve, Walk;
    RenderAppend(workdir, segments);
    PrefixWithSlash(Render(workdir), Render(segments));
  }

  lemma PrefixWithSlash(a: string, b: string)
    requires b != [] && b[0] == '/'
    ensures a + "/" <= a + b
  {
    assert b == "/" + b[1..];
    assert a + b == a + "/" + b[1..];
  }

  lemma DotsAndNewline(seg: string)
    requires |seg| == 3 && seg[..2] == ".." && seg[2] == '\n'
    ensures IsAllowedSegment(seg)
  {
    assert seg[..2][0] == '.' && seg[..2][1] == '.';
    assert seg != "." && seg != ".." && seg != ".git";
    var body := seg[..|seg| - 1];
    assert body == seg[..2];
    forall i | 0 <= i < |body| ensures IsSegmentChar(body[i]) {
      assert i == 0 || i == 1;
    }
  }

  /** A final newline slips through the segment test, even behind a name that is refused without it;
      the name then leads to a file of that odd name, not to the parent directory. */
  lemma FinalNewlineAccepted(base: seq<string>)
    ensures !Accepted("..") && Accepted("..\n") && Resolve(base, "..\n") == base + ["..\n"]
  {
    SplitWithout("..", '/');
    SplitWithout("..\n", '/');
    DotsAndNewline("..\n");
    assert !IsAllowedSegment("..");
    hide IsAllowedSegment, Accepted, Resolve, Walk;
    AcceptedBySegments("..\n");
    AcceptedBySegments("..");
    AcceptedResolvesInside(base, "..\n");
    assert !IsAllowedSegment(Split("..", '/')[0]);
  }
}
