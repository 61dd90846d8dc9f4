/**
 Relative paths of archive entries (desktop/src/core/text.cpp): the safety predicate and the normaliser.

 `Split`, `Resolve` and `Join` are the segment-stack reading of a path; `NormalizeRelativePath` is the
 source's loop, and `AcceptedExactly` says for every path whether it is accepted without looking at the
 normaliser's own last check.
 */
module Paths {
  import opened Wrappers

  const MAX_LENGTH := 200

  predicate IsSeparator(c: char) {
    c == '/' || c == '\\'
  }

  predicate IsControl(c: char) {
    c as int < 0x20 || c as int == 0x7F
  }

  predicate HasControl(p: string) {
    exists i | 0 <= i < |p| :: IsControl(p[i])
  }

  /** An absolute path, or one that starts with a drive letter. */
  predicate HasPrefix(p: string) {
    (p != [] && IsSeparator(p[0])) || HasDrive(p)
  }

  predicate HasDrive(p: string) {
    |p| >= 2 && p[1] == ':'
  }

  predicate IsName(segment: string) {
    segment != "" && segment != "." && segment != ".."
  }

  predicate NoSeparator(s: string) {
    forall i | 0 <= i < |s| :: !IsSeparator(s[i])
  }

  // ----- Segments -----

  /** The segments of a path, cut at either separator. */
  function Split(p: string): (segments: seq<string>)
    ensures segments != []
  {
    if p == [] then [""]
    else
      var segments := Split(p[..|p| - 1]);
      var last := |segments| - 1;
      if IsSeparator(p[|p| - 1]) then segments + [""]
      else segments[..last] + [segments[last] + [p[|p| - 1]]]
  }

  function Push(stack: seq<string>, segment: string): Option<seq<string>> {
    if segment == "" || segment == "." then Some(stack)
    else if segment == ".." then
      if stack == [] then None else Some(stack[..|stack| - 1])
    else Some(stack + [segment])
  }

  /** The stack the segments leave; None when a `..` finds it empty. */
  function Resolve(segments: seq<string>): Option<seq<string>> {
    if segments == [] then Some([])
    else
      var last := |segments| - 1;
      match Resolve(segments[..last])
      case None => None
      case Some(stack) => Push(stack, segments[last])
  }

  function Join(parts: seq<string>): string {
    if parts == [] then ""
    else if |parts| == 1 then parts[0]
    else Join(parts[..|parts| - 1]) + "/" + parts[|parts| - 1]
  }

  /** How far below its start a walk along the segments ends: a name goes down, `..` goes up. */
  function Depth(segments: seq<string>): int {
    if segments == [] then 0
    else
      var last := |segments| - 1;
      Depth(segments[..last]) +
      (if IsName(segments[last]) then 1 else if segments[last] == ".." then -1 else 0)
  }

  ghost predicate NeverAboveStart(segments: seq<string>) {
    forall k | 0 <= k <= |segments| :: Depth(segments[..k]) >= 0
  }

  /** The stack never underflows exactly when no prefix of the path climbs above its start. */
  lemma {:induction false} ResolvesExactly(segments: seq<string>)
    ensures Resolve(segments).Some? <==> NeverAboveStart(segments)
    ensures Resolve(segments).Some? ==> |Resolve(segments).value| == Depth(segments)
  {
    assert segments[..|segments|] == segments;
    if segments != [] {
      var before := segments[..|segments| - 1];
      ResolvesExactly(before);
      assert forall k | 0 <= k <= |before| :: before[..k] == segments[..k];
      if NeverAboveStart(segments) {
        assert NeverAboveStart(before) by {
          forall k | 0 <= k <= |before| ensures Depth(before[..k]) >= 0 {
            assert Depth(segments[..k]) >= 0;
          }
        }
        assert Depth(segments[..|segments|]) >= 0;
      }
      if Resolve(segments).Some? {
        forall k | 0 <= k <= |segments| ensures Depth(segments[..k]) >= 0 {
          if k <= |before| { assert Depth(before[..k]) >= 0; }
        }
      }
    }
  }

  // ----- The safety predicate -----

  predicate Unsafe(p: string) {
    p == [] || |p| > MAX_LENGTH || HasPrefix(p) || HasControl(p) || ".." in Split(p)
  }

  /** is_unsafe_relative_path. */
  method IsUnsafeRelativePath(p: string) returns (r: bool)
    ensures r <==> Unsafe(p)
  {
    if p == [] { return true; }
    if |p| > 200 { return true; }
    if p[0] == '/' || p[0] == '\\' { return true; }
    if |p| >= 2 && p[1] == ':' { return true; }
    // The source's next test, for a UNC prefix, repeats the test of the first character.
    var control := FindControl(p);
    if control { return true; }
    r := HasUpSegment(p);
  }

  /** The traversal scan: whether some segment is `..`. */
  method HasUpSegment(p: string) returns (found: bool)
    ensures found <==> ".." in Split(p)
  {
    hide Split;
    EmptySplit();
    var start, i := 0, 0;
    ghost var done: seq<string> := [];
    while i <= |p|
      invariant i <= |p| + 1 && start <= i
      invariant i <= |p| ==> Split(p[..i]) == done + [p[start..i]]
      invariant i == |p| + 1 ==> Split(p) == done
      invariant ".." !in done
    {
      SplitStep(p, start, i, done);
      if i == |p| || p[i] == '/' || p[i] == '\\' {
        var segment := p[start..i];
        done := done + [segment];
        start := i + 1;
        if segment == ".." {
          SplitMember(p, i, done);
          return true;
        }
      }
      i := i + 1;
    }
    return false;
  }

  method FindControl(p: string) returns (found: bool)
    ensures found <==> HasControl(p)
  {
    for i := 0 to |p|
      invariant forall k | 0 <= k < i :: !IsControl(p[k])
    {
      if p[i] as int == 0 || (p[i] as int) < 0x20 || p[i] as int == 0x7F {
        assert IsControl(p[i]);
        return true;
      }
    }
    return false;
  }

  /** One step of the segment scan at index `i`, the current segment being `p[start..i]`. */
  lemma SplitStep(p: string, start: nat, i: nat, done: seq<string>)
    requires start <= i <= |p| && Split(p[..i]) == done + [p[start..i]]
    ensures i == |p| ==> Split(p) == done + [p[start..i]]
    ensures i < |p| && IsSeparator(p[i]) ==> Split(p[..i + 1]) == done + [p[start..i]] + [p[i + 1..i + 1]]
    ensures i < |p| && !IsSeparator(p[i]) ==> Split(p[..i + 1]) == done + [p[start..i + 1]]
  {
    hide Split;
    if i == |p| {
      assert p[..i] == p;
    } else {
      assert p[..i + 1] == p[..i] + [p[i]];
      SplitSnoc(p[..i], p[i]);
      assert p[start..i + 1] == p[start..i] + [p[i]];
      assert p[i + 1..i + 1] == "";
    }
  }

  lemma SplitSnoc(p: string, c: char)
    ensures var segments := Split(p); var last := |segments| - 1;
            Split(p + [c]) ==
            if IsSeparator(c) then segments + [""] else segments[..last] + [segments[last] + [c]]
  {
    assert (p + [c])[..|p|] == p;
  }

  /** A segment closed at index `i` is a segment of the whole path. */
  lemma {:induction false} SplitMember(p: string, i: nat, done: seq<string>)
    requires i <= |p| && done != []
    requires i == |p| ==> Split(p) == done
    requires i < |p| ==> IsSeparator(p[i]) && Split(p[..i]) == done
    ensures done[|done| - 1] in Split(p)
  {
    var x := done[|done| - 1];
    if i < |p| {
      assert p[..i + 1][..i] == p[..i];
      var closed := Split(p[..i + 1]);
      assert closed == done + [""];
      SplitGrows(p, i + 1, |done|);
      assert p[..|p|] == p;
    }
  }

  /** All but the last segment of a prefix stay segments of the whole path. */
  lemma {:induction false} SplitGrows(p: string, i: nat, n: nat)
    requires i <= |p| && n < |Split(p[..i])|
    ensures n < |Split(p)| && Split(p)[..n] == Split(p[..i])[..n]
    decreases |p| - i
  {
    if i < |p| {
      assert p[..i + 1][..i] == p[..i];
      SplitGrows(p, i + 1, n);
    } else {
      assert p[..i] == p;
    }
  }

  // ----- Normalising -----

  function Normalize(p: string): Option<string> {
    if p == [] || HasPrefix(p) || HasControl(p) then None
    else match Resolve(Split(p))
      case None => None
      case Some(stack) => if stack == [] || Unsafe(Join(stack)) then None else Some(Join(stack))
  }

  /** normalize_relative_path; `out` is empty whenever the path is refused. */
  method NormalizeRelativePath(p: string) returns (ok: bool, out: string)
    ensures ok <==> Normalize(p).Some?
    ensures out == if ok then Normalize(p).value else ""
  {
    out := "";
    if p == [] { return false, out; }
    if p[0] == '/' || p[0] == '\\' { return false, out; }
    if |p| >= 2 && p[1] == ':' { return false, out; }
    var control := FindControl(p);
    if control { return false, out; }
    var resolved := ResolveSegments(p);
    if resolved == None || resolved.value == [] { return false, out; }
    out := JoinLoop(resolved.value);
    var unsafe := IsUnsafeRelativePath(out);
    if unsafe { return false, ""; }
    return true, out;
  }

  /** The segment loop of the normaliser, with its stack; None where the source returns false. */
  method ResolveSegments(p: string) returns (resolved: Option<seq<string>>)
    ensures resolved == Resolve(Split(p))
  {
    hide Split, Resolve;
    EmptySplit();
    var stack: seq<string> := [];
    var start, i := 0, 0;
    ghost var done: seq<string> := [];
    while i <= |p|
      invariant i <= |p| + 1 && start <= i
      invariant i <= |p| ==> Split(p[..i]) == done + [p[start..i]]
      invariant i == |p| + 1 ==> Split(p) == done
      invariant Resolve(done) == Some(stack)
    {
      SplitStep(p, start, i, done);
      if i == |p| || p[i] == '/' || p[i] == '\\' {
        var segment := p[start..i];
        ResolveSnoc(done, segment);
        done := done + [segment];
        start := i + 1;
        if segment == [] || segment == "." {
        } else if segment == ".." {
          if stack == [] {
            RefusedSegment(p, i, done);
            return None;
          }
          stack := stack[..|stack| - 1];
        } else {
          stack := stack + [segment];
        }
      }
      i := i + 1;
    }
    return Some(stack);
  }

  lemma EmptySplit()
    ensures Resolve([]) == Some([]) && Split([]) == [""]
  {
  }

  lemma ResolveSnoc(segments: seq<string>, segment: string)
    ensures Resolve(segments + [segment]) ==
            match Resolve(segments) case None => None case Some(stack) => Push(stack, segment)
  {
    assert (segments + [segment])[..|segments|] == segments;
  }

  method JoinLoop(stack: seq<string>) returns (out: string)
    ensures out == Join(stack)
  {
    out := "";
    for i := 0 to |stack|
      invariant out == Join(stack[..i])
    {
      assert stack[..i + 1][..i] == stack[..i];
      if i > 0 { out := out + "/"; }
      out := out + stack[i];
    }
    assert stack[..|stack|] == stack;
  }

  /** An underflow at one segment is an underflow of the whole path. */
  lemma RefusedSegment(p: string, i: nat, done: seq<string>)
    requires i <= |p| && done != [] && Resolve(done) == None
    requires i == |p| ==> Split(p) == done
    requires i < |p| ==> IsSeparator(p[i]) && Split(p[..i]) == done
    ensures Resolve(Split(p)) == None
  {
    if i < |p| {
      assert p[..i + 1][..i] == p[..i];
      assert Split(p[..i + 1]) == done + [""];
      SplitGrows(p, i + 1, |done|);
      assert (done + [""])[..|done|] == done;
      PrefixRefused(Split(p), |done|);
    }
  }

  lemma {:induction false} PrefixRefused(segments: seq<string>, n: nat)
    requires n <= |segments| && Resolve(segments[..n]) == None
    ensures Resolve(segments) == None
    decreases |segments|
  {
    if n < |segments| {
      var before := segments[..|segments| - 1];
      assert before[..n] == segments[..n];
      PrefixRefused(before, n);
    } else {
      assert segments[..n] == segments;
    }
  }

  // ----- What is accepted -----

  ghost predicate CleanSegment(s: string) {
    NoSeparator(s) && !HasControl(s)
  }

  ghost predicate CleanSegments(segments: seq<string>) {
    forall k | 0 <= k < |segments| :: CleanSegment(segments[k])
  }

  ghost predicate CleanNames(stack: seq<string>) {
    forall k | 0 <= k < |stack| :: CleanSegment(stack[k]) && IsName(stack[k])
  }

  /** Segments hold no separator, and no control character when the path has none. */
  lemma {:induction false} SegmentsAreClean(p: string)
    requires !HasControl(p)
    ensures CleanSegments(Split(p))
  {
    if p != [] {
      var before := p[..|p| - 1];
      assert forall i | 0 <= i < |before| :: before[i] == p[i];
      SegmentsAreClean(before);
      var segments := Split(before);
      var last := segments[|segments| - 1];
      assert CleanSegment(last) && !IsControl(p[|p| - 1]);
      if !IsSeparator(p[|p| - 1]) {
        assert CleanSegment(last + [p[|p| - 1]]);
      }
    }
  }

  lemma {:induction false} StackIsClean(segments: seq<string>)
    requires CleanSegments(segments) && Resolve(segments).Some?
    ensures CleanNames(Resolve(segments).value)
  {
    if segments != [] {
      StackIsClean(segments[..|segments| - 1]);
    }
  }

  /** A stack of names is what its joined path splits into. */
  lemma {:induction false} SplitOfJoin(stack: seq<string>)
    requires stack != [] && CleanNames(stack)
    ensures Split(Join(stack)) == stack
  {
    hide Split, Join, HasControl;
    var before, last := stack[..|stack| - 1], stack[|stack| - 1];
    assert stack == before + [last] && CleanSegment(last);
    JoinSnoc(before, last);
    if before == [] {
      SplitOneSegment(last);
    } else {
      SplitOfJoin(before);
      SplitAfterSeparator(Join(before), '/', last);
    }
  }

  lemma JoinSnoc(stack: seq<string>, last: string)
    ensures Join(stack + [last]) == if stack == [] then last else Join(stack) + "/" + last
  {
    if stack != [] { assert (stack + [last])[..|stack|] == stack; }
  }

  lemma {:induction false} SplitOneSegment(s: string)
    requires NoSeparator(s)
    ensures Split(s) == [s]
  {
    if s != [] {
      SplitOneSegment(s[..|s| - 1]);
      assert s[..|s| - 1] + [s[|s| - 1]] == s;
    }
  }

  lemma {:induction false} SplitAfterSeparator(a: string, separator: char, s: string)
    requires IsSeparator(separator) && NoSeparator(s)
    ensures Split(a + [separator] + s) == Split(a) + [s]
    decreases |s|
  {
    var whole := a + [separator] + s;
    if s == [] {
      assert whole[..|whole| - 1] == a;
    } else {
      var before := s[..|s| - 1];
      SplitAfterSeparator(a, separator, before);
      assert whole[..|whole| - 1] == a + [separator] + before;
      assert before + [s[|s| - 1]] == s;
    }
  }

  lemma {:induction false} ResolveNames(stack: seq<string>)
    requires CleanNames(stack)
    ensures Resolve(stack) == Some(stack)
  {
    if stack != [] {
      var before, last := stack[..|stack| - 1], stack[|stack| - 1];
      assert stack == before + [last] && IsName(last);
      ResolveNames(before);
      ResolveSnoc(before, last);
    }
  }

  lemma {:induction false} JoinIsClean(stack: seq<string>)
    requires stack != [] && CleanNames(stack)
    ensures !HasControl(Join(stack))
    ensures Join(stack) != [] && !IsSeparator(Join(stack)[0])
  {
    var last := stack[|stack| - 1];
    assert CleanSegment(last) && IsName(last);
    if |stack| > 1 {
      var before := stack[..|stack| - 1];
      JoinIsClean(before);
      assert Join(stack)[0] == Join(before)[0];
    }
  }

  /** Which paths are accepted, and with what result: none of the classes of forbidden prefixes and
      characters, a stack that never underflows and ends non-empty, and a joined path that is neither too
      long nor, its leading `.` segments gone, one that starts with a drive letter. */
  lemma AcceptedExactly(p: string)
    ensures Normalize(p).Some? <==>
            && p != [] && !HasPrefix(p) && !HasControl(p)
            && Resolve(Split(p)).Some?
            && var stack := Resolve(Split(p)).value;
               stack != [] && |Join(stack)| <= MAX_LENGTH && !HasDrive(Join(stack))
    ensures Normalize(p).Some? ==> NeverAboveStart(Split(p)) && Depth(Split(p)) > 0
    ensures Normalize(p).Some? ==> Normalize(p).value == Join(Resolve(Split(p)).value)
  {
    hide Split, Resolve, Join, HasControl, Depth, Unsafe, HasDrive, CleanNames, CleanSegments;
    ResolvesExactly(Split(p));
    assert Split(p)[..|Split(p)|] == Split(p);
    if p != [] && !HasPrefix(p) && !HasControl(p) && Resolve(Split(p)).Some? {
      var stack := Resolve(Split(p)).value;
      SegmentsAreClean(p);
      StackIsClean(Split(p));
      if stack != [] { JoinIsSafe(stack); }
    }
  }

  /** All that can still be wrong with a joined stack of clean names. */
  lemma JoinIsSafe(stack: seq<string>)
    requires stack != [] && CleanNames(stack)
    ensures Unsafe(Join(stack)) <==> |Join(stack)| > MAX_LENGTH || HasDrive(Join(stack))
  {
    hide Split, Join, HasControl, HasDrive;
    JoinIsClean(stack);
    SplitOfJoin(stack);
    assert forall k | 0 <= k < |stack| :: IsName(stack[k]);
  }

  /** Whatever is accepted is safe, and normalising it again changes nothing. */
  lemma AcceptedIsSafeAndFixed(p: string)
    requires Normalize(p).Some?
    ensures var out := Normalize(p).value;
            && !Unsafe(out)
            && Normalize(out) == Some(out)
            && Split(out) == Resolve(Split(p)).value
            && '\\' !in out
            && forall k | 0 <= k < |Split(out)| :: IsName(Split(out)[k])
  {
    var stack := Resolve(Split(p)).value;
    SegmentsAreClean(p);
    StackIsClean(Split(p));
    JoinWrites(stack);
    SplitOfJoin(stack);
    ResolveNames(stack);
  }

  // ----- Character by character -----

  predicate IsSlash(c: char) {
    c as int == 47 || c as int == 92
  }

  /** From i to j the path reads s, between slashes or ends. */
  predicate Stands(p: string, i: nat, j: nat, s: string) {
    && i <= j <= |p| && p[i..j] == s && (forall k | i <= k < j :: !IsSlash(p[k]))
    && (i == 0 || IsSlash(p[i - 1])) && (j == |p| || IsSlash(p[j]))
  }

  /** It stands before some slash. */
  ghost predicate StandsBefore(p: string, s: string) {
    exists i: nat, j: nat :: j < |p| && Stands(p, i, j, s)
  }

  /** A segment but the last one is what stands before some slash, and the last one what stands at the end. */
  lemma {:induction false} SegmentsStand(p: string, s: string) returns (start: nat)
    ensures var last := |Split(p)| - 1;
            Stands(p, start, |p|, Split(p)[last]) && (s in Split(p)[..last] <==> StandsBefore(p, s))
  {
    if p == [] {
      start := 0;
    } else {
      var before, n := p[..|p| - 1], |p| - 1;
      start := SegmentsStand(before, s);
      SplitLast(p);
      var segments := Split(before);
      var last := |segments| - 1;
      hide Split, StandsBefore, Stands;
      if IsSlash(p[n]) {
        assert (segments + [""])[..last + 1] == segments[..last] + [segments[last]];
        SlashAdds(p, s, start, segments[last]);
        start := |p|;
        EmptyStands(p);
      } else {
        assert (segments[..last] + [segments[last] + [p[n]]])[..last] == segments[..last];
        CharAdds(p, s, start, segments[last]);
      }
    }
  }

  lemma EmptyStands(p: string)
    requires p != [] && IsSlash(p[|p| - 1])
    ensures Stands(p, |p|, |p|, "")
  {
  }

  lemma SameBefore(p: string, i: nat, j: nat, s: string)
    requires p != [] && j < |p| - 1
    ensures Stands(p, i, j, s) <==> Stands(p[..|p| - 1], i, j, s)
  {
    if i <= j { assert p[i..j] == p[..|p| - 1][i..j]; }
  }

  /** A slash at the end: what stood at the end now stands before it. */
  lemma SlashAdds(p: string, s: string, start: nat, end: string)
    requires p != [] && IsSlash(p[|p| - 1]) && Stands(p[..|p| - 1], start, |p| - 1, end)
    ensures StandsBefore(p, s) <==> StandsBefore(p[..|p| - 1], s) || s == end
  {
    var before, n := p[..|p| - 1], |p| - 1;
    assert p[start..n] == before[start..n];
    assert Stands(p, start, n, end);
    if i: nat, j: nat :| j < |p| && Stands(p, i, j, s) {
      if j < n {
        SameBefore(p, i, j, s);
      } else {
        assert i == start;
      }
    }
    if i: nat, j: nat :| j < n && Stands(before, i, j, s) { SameBefore(p, i, j, s); }
  }

  /** Any other character: it is added to what stands at the end. */
  lemma CharAdds(p: string, s: string, start: nat, end: string)
    requires p != [] && !IsSlash(p[|p| - 1]) && Stands(p[..|p| - 1], start, |p| - 1, end)
    ensures StandsBefore(p, s) <==> StandsBefore(p[..|p| - 1], s)
    ensures Stands(p, start, |p|, end + [p[|p| - 1]])
  {
    var before, n := p[..|p| - 1], |p| - 1;
    assert p[start..|p|] == before[start..n] + [p[n]];
    if i: nat, j: nat :| j < |p| && Stands(p, i, j, s) { SameBefore(p, i, j, s); }
    if i: nat, j: nat :| j < n && Stands(before, i, j, s) { SameBefore(p, i, j, s); }
  }

  lemma SplitLast(p: string)
    requires p != []
    ensures var segments := Split(p[..|p| - 1]); var last := |segments| - 1;
            Split(p) == if IsSlash(p[|p| - 1]) then segments + [""]
                        else segments[..last] + [segments[last] + [p[|p| - 1]]]
  {
  }

  /** The segments are what stands between slashes or ends. */
  lemma SegmentsExactly(p: string, s: string)
    ensures s in Split(p) <==> exists i: nat, j: nat :: Stands(p, i, j, s)
  {
    var start := SegmentsStand(p, s);
    var last := |Split(p)| - 1;
    hide Split;
    assert Split(p) == Split(p)[..last] + [Split(p)[last]];
    forall i: nat | Stands(p, i, |p|, s) ensures i == start && s == Split(p)[last] {
    }
    if i: nat, j: nat :| Stands(p, i, j, s) { assert j == |p| || StandsBefore(p, s); }
  }

  /** A path is unsafe exactly when it is empty, longer than 200 bytes, begins with a slash or has a colon behind its
      first character, holds a control character, or two dots stand somewhere between slashes or ends. */
  lemma UnsafeExactly(p: string)
    ensures Unsafe(p) <==>
            || |p| == 0 || |p| > 200 || IsSlash(p[0]) || (|p| > 1 && p[1] as int == 58)
            || (exists i | 0 <= i < |p| :: p[i] as int <= 31 || p[i] as int == 127)
            || exists i: nat, j: nat :: Stands(p, i, j, "..")
  {
    SegmentsExactly(p, "..");
    hide Split, Stands;
    assert HasControl(p) <==> exists i | 0 <= i < |p| :: p[i] as int <= 31 || p[i] as int == 127 by {
      assert forall i | 0 <= i < |p| :: IsControl(p[i]) <==> p[i] as int <= 31 || p[i] as int == 127;
    }
  }

  predicate HoldsNoSlash(s: string) {
    forall i | 0 <= i < |s| :: !IsSlash(s[i])
  }

  /** What a path without slashes leads to, and what one more segment behind either slash does: nothing for an empty
      one and for a dot, two dots drop the last name and fail without one, any other is a name. */
  lemma SegmentLaws(a: string, slash: char, b: string)
    requires IsSlash(slash) && HoldsNoSlash(b)
    ensures Resolve(Split(b)) == if b == "" || b == "." then Some([]) else if b == ".." then None else Some([b])
    ensures Resolve(Split(a + [slash] + b)) ==
            match Resolve(Split(a)) case None => None case Some(stack) =>
            if b == "" || b == "." then Some(stack)
            else if b != ".." then Some(stack + [b])
            else if stack == [] then None else Some(stack[..|stack| - 1])
  {
    SplitOneSegment(b);
    SplitAfterSeparator(a, slash, b);
    hide Split;
    ResolveSnoc([], b);
    ResolveSnoc(Split(a), b);
    assert [] + [b] == [b];
  }

  /** Joined names are separated by slashes of the one kind. */
  lemma {:induction false} JoinWrites(stack: seq<string>)
    requires stack != [] && forall k | 0 <= k < |stack| :: HoldsNoSlash(stack[k])
    ensures '\\' !in Join(stack)
  {
    if |stack| > 1 {
      var before, last := stack[..|stack| - 1], stack[|stack| - 1];
      JoinWrites(before);
      assert forall i | 0 <= i < |last| :: last[i] != '\\';
    } else {
      assert forall i | 0 <= i < |stack[0]| :: stack[0][i] != '\\';
    }
  }

  /** The safety predicate alone is not closed under normalising: `./c:x` passes it, its normal form `c:x`
      does not, and the normaliser's last check is what refuses it. */
  lemma DriveBehindDot()
    ensures !Unsafe("./c:x") && Normalize("./c:x") == None
    ensures Resolve(Split("./c:x")) == Some(["c:x"]) && Unsafe("c:x")
  {
    hide Split, Resolve, Join;
    SplitOneSegment(".");
    SplitOneSegment("c:x");
    SplitAfterSeparator(".", '/', "c:x");
    assert "./c:x" == "." + "/" + "c:x";
    EmptySplit();
    ResolveSnoc([], ".");
    ResolveSnoc(["."], "c:x");
    assert [] + ["."] == ["."] && ["."] + ["c:x"] == [".", "c:x"] && [] + ["c:x"] == ["c:x"];
    JoinSnoc([], "c:x");
    assert "./c:x"[1] == '/' && "c:x"[1] == ':';
  }
}
