/**
 Removing "." and ".." segments from a path, in place.

 The meaning is given on segments: a stack of finished segments, and a last one that
 no slash follows.  The four passes of the source work on characters; what each of
 them keeps is the value of `Walk`, which reads the path left to right and keeps the
 finished segments as text.
 */
module PathReducer {

  // ----- Segments -----------------------------------------------------------------------

  /** The place of the first slash, or the end. */
  function Slash(s: string): (i: nat)
    ensures i <= |s|
    ensures forall k :: 0 <= k < i ==> s[k] != '/'
    ensures i < |s| ==> s[i] == '/'
  {
    if s == "" || s[0] == '/' then 0 else 1 + Slash(s[1..])
  }

  function Split(s: string): (r: seq<string>)
    ensures r != []
  {
    var i := Slash(s);
    if i == |s| then [s] else [s[..i]] + Split(s[i + 1..])
  }

  function Pop(stack: seq<string>): seq<string> {
    if stack == [] then [] else stack[..|stack| - 1]
  }

  /** A segment with a slash behind it. */
  function Push(stack: seq<string>, segment: string): seq<string> {
    if segment == "." then stack else if segment == ".." then Pop(stack) else stack + [segment]
  }

  /** Each segment with its slash. */
  function Join(stack: seq<string>): string {
    if stack == [] then "" else Join(stack[..|stack| - 1]) + stack[|stack| - 1] + "/"
  }

  /** The last segment: a final dot segment leaves an empty one. */
  function Last(stack: seq<string>, segment: string): string {
    if segment == "." then Join(stack)
    else if segment == ".." then Join(Pop(stack))
    else Join(stack) + segment
  }

  function Evaluate(stack: seq<string>, segments: seq<string>): string
    requires segments != []
    decreases |segments|
  {
    if |segments| == 1 then Last(stack, segments[0])
    else Evaluate(Push(stack, segments[0]), segments[1..])
  }

  function Reduced(path: string): string {
    Evaluate([], Split(path))
  }

  // ----- Text ------------------------------------------------------------------------------

  /** Text that ends where a segment begins. */
  predicate AtStart(out: string) {
    out == "" || out[|out| - 1] == '/'
  }

  /** The beginning of the segment that holds position `k`. */
  function Start(s: string, k: nat): (j: nat)
    requires k <= |s|
    ensures j <= k && (j == 0 || s[j - 1] == '/')
    ensures forall i :: j <= i < k ==> s[i] != '/'
  {
    if k == 0 || s[k - 1] == '/' then k else Start(s, k - 1)
  }

  function PopText(out: string): (r: string)
    ensures AtStart(r) && |r| <= |out|
  {
    if out == "" then "" else out[..Start(out, |out| - 1)]
  }

  /** Reading on from the beginning of a segment. */
  function Walk(out: string, rest: string): string
    decreases |rest|
  {
    var i := Slash(rest);
    var segment := rest[..i];
    if i == |rest| then
      (if segment == "." then out else if segment == ".." then PopText(out) else out + segment)
    else if segment == "." then Walk(out, rest[i + 1..])
    else if segment == ".." then Walk(PopText(out), rest[i + 1..])
    else Walk(out + segment + "/", rest[i + 1..])
  }

  ghost predicate Segments(stack: seq<string>) {
    forall i :: 0 <= i < |stack| ==> IsSegment(stack[i])
  }

  predicate IsSegment(s: string) {
    forall k :: 0 <= k < |s| ==> s[k] != '/'
  }

  lemma PopIsPopText(stack: seq<string>)
    requires Segments(stack)
    ensures PopText(Join(stack)) == Join(Pop(stack))
  {
    if stack != [] {
      var last := |stack| - 1;
      var front, all := Join(stack[..last]), Join(stack);
      JoinAtStart(stack[..last]);
      assert all == front + stack[last] + "/";
      StartIs(all, |all| - 1, |front|);
      assert all[..|front|] == front;
    }
  }

  lemma JoinAtStart(stack: seq<string>)
    ensures AtStart(Join(stack))
  {
  }

  lemma {:induction false} StartIs(s: string, k: nat, j: nat)
    requires j <= k <= |s| && (j == 0 || s[j - 1] == '/')
    requires forall i :: j <= i < k ==> s[i] != '/'
    ensures Start(s, k) == j
    decreases k
  {
    if k > j { StartIs(s, k - 1, j); }
  }

  /** What pushing a segment does to the text. */
  lemma PushJoins(stack: seq<string>, segment: string)
    requires Segments(stack) && IsSegment(segment)
    ensures Segments(Push(stack, segment))
    ensures Join(Push(stack, segment)) == if segment == "." then Join(stack)
                                          else if segment == ".." then PopText(Join(stack))
                                          else Join(stack) + segment + "/"
  {
    hide PopText;
    PopIsPopText(stack);
    assert (stack + [segment])[..|stack|] == stack;
  }

  lemma {:induction false} SplitNext(rest: string)
    ensures var i := Slash(rest);
            if i == |rest| then Split(rest) == [rest]
            else |Split(rest)| > 1 && Split(rest)[0] == rest[..i] && Split(rest)[1..] == Split(rest[i + 1..])
  {
    hide Slash;
    var i := Slash(rest);
    if i < |rest| {
      var tail := Split(rest[i + 1..]);
      assert Split(rest) == [rest[..i]] + tail;
      assert ([rest[..i]] + tail)[1..] == tail;
    }
  }

  /** The text reading is the segment evaluation. */
  lemma {:induction false} WalkIsEvaluate(stack: seq<string>, rest: string)
    requires Segments(stack)
    ensures Walk(Join(stack), rest) == Evaluate(stack, Split(rest))
    decreases |rest|
  {
    hide PopText, Join, Push, Pop, Split, Segments;
    var i := Slash(rest);
    var segment := rest[..i];
    SplitNext(rest);
    if i < |rest| {
      PushJoins(stack, segment);
      WalkIsEvaluate(Push(stack, segment), rest[i + 1..]);
    } else {
      assert segment == rest;
      PopIsPopText(stack);
    }
  }

  lemma ReducedIsWalk(path: string)
    ensures Reduced(path) == Walk("", path)
  {
    WalkIsEvaluate([], path);
  }

  // ----- What holds of the result --------------------------------------------------------

  predicate IsDots(s: string) { s == "." || s == ".." }

  ghost predicate NoDots(segments: seq<string>) {
    forall i :: 0 <= i < |segments| ==> !IsDots(segments[i])
  }

  lemma {:induction false} SplitGivesSegments(s: string)
    ensures Segments(Split(s))
    decreases |s|
  {
    var i := Slash(s);
    if i < |s| { SplitGivesSegments(s[i + 1..]); }
  }

  lemma SplitFirst(segment: string, rest: string)
    requires IsSegment(segment)
    ensures Slash(segment) == |segment| && Slash(segment + "/" + rest) == |segment|
    ensures Split(segment) == [segment]
    ensures Split(segment + "/" + rest) == [segment] + Split(rest)
  {
    var s := segment + "/" + rest;
    SlashIs(segment, |segment|);
    SlashIs(s, |segment|);
    assert s[..|segment|] == segment && s[|segment| + 1..] == rest;
  }

  lemma {:induction false} SplitJoined(stack: seq<string>, last: string)
    requires Segments(stack) && IsSegment(last)
    ensures Split(Join(stack) + last) == stack + [last]
    decreases |stack|
  {
    hide Split;
    if stack == [] {
      SplitFirst(last, "");
      assert Join(stack) + last == last;
    } else {
      hide Join;
      JoinFront(stack);
      var rest := Join(stack[1..]) + last;
      assert Join(stack) + last == stack[0] + "/" + rest;
      SplitFirst(stack[0], rest);
      SplitJoined(stack[1..], last);
      assert stack + [last] == [stack[0]] + (stack[1..] + [last]);
    }
  }

  lemma {:induction false} SlashIs(s: string, i: nat)
    requires i <= |s| && (forall k :: 0 <= k < i ==> s[k] != '/') && (i < |s| ==> s[i] == '/')
    ensures Slash(s) == i
  {
    if i > 0 { SlashIs(s[1..], i - 1); }
  }

  lemma {:induction false} JoinFront(stack: seq<string>)
    requires stack != []
    ensures Join(stack) == stack[0] + "/" + Join(stack[1..])
    decreases |stack|
  {
    var last := |stack| - 1;
    if last > 0 {
      JoinFront(stack[..last]);
      assert stack[..last][1..] == stack[1..][..last - 1] && stack[1..][last - 1] == stack[last];
    }
  }

  /** The result is the segments left on the stack and one more, none of them dots. */
  lemma {:induction false} EvaluateIsClean(stack: seq<string>, segments: seq<string>) returns (left: seq<string>,
      last: string)
    requires segments != [] && Segments(stack) && NoDots(stack) && Segments(segments)
    ensures Segments(left) && NoDots(left) && IsSegment(last) && !IsDots(last)
    ensures Evaluate(stack, segments) == Join(left) + last
    decreases |segments|
  {
    if |segments| == 1 {
      left, last := Push(stack, segments[0]), "";
      if !IsDots(segments[0]) { left, last := stack, segments[0]; }
      assert Join(left) + "" == Join(left);
    } else {
      left, last := EvaluateIsClean(Push(stack, segments[0]), segments[1..]);
    }
  }

  lemma {:induction false} CleanIsFixed(stack: seq<string>, segments: seq<string>, last: string)
    requires NoDots(segments) && !IsDots(last)
    ensures Evaluate(stack, segments + [last]) == Join(stack + segments) + last
    decreases |segments|
  {
    if segments == [] {
      assert stack + segments == stack && segments + [last] == [last];
    } else {
      assert (segments + [last])[1..] == segments[1..] + [last];
      assert stack + [segments[0]] + segments[1..] == stack + segments;
      CleanIsFixed(stack + [segments[0]], segments[1..], last);
    }
  }

  /** No dot segment is left, and reducing again changes nothing. */
  lemma ReducedIsClean(path: string)
    ensures NoDots(Split(Reduced(path)))
    ensures Reduced(Reduced(path)) == Reduced(path)
  {
    SplitGivesSegments(path);
    var left, last := EvaluateIsClean([], Split(path));
    SplitJoined(left, last);
    CleanIsFixed([], left, last);
    assert [] + left == left;
  }

  lemma {:induction false} WalkNeverGrows(out: string, rest: string)
    ensures |Walk(out, rest)| <= |out| + |rest|
    decreases |rest|
  {
    var i := Slash(rest);
    if i < |rest| {
      WalkNeverGrows(out, rest[i + 1..]);
      WalkNeverGrows(PopText(out), rest[i + 1..]);
      WalkNeverGrows(out + rest[..i] + "/", rest[i + 1..]);
    }
  }

  lemma ReducedNeverGrows(path: string)
    ensures |Reduced(path)| <= |path|
  {
    ReducedIsWalk(path);
    WalkNeverGrows("", path);
  }

  // ----- The first two passes: "." --------------------------------------------------------

  /** Drops every "./" that stands at the beginning of a segment. */
  function Strip(rest: string, start: bool): (r: string)
    ensures |r| <= |rest|
    decreases |rest|
  {
    if rest == "" then ""
    else if start && |rest| >= 2 && rest[0] == '.' && rest[1] == '/' then Strip(rest[2..], true)
    else [rest[0]] + Strip(rest[1..], rest[0] == '/')
  }

  /** No segment is ".". */
  predicate DotFree(s: string)
    decreases |s|
  {
    var i := Slash(s);
    s[..i] != "." && (i < |s| ==> DotFree(s[i + 1..]))
  }

  /** Only the last segment may be ".". */
  predicate DotsAtEnd(s: string)
    decreases |s|
  {
    var i := Slash(s);
    i < |s| ==> s[..i] != "." && DotsAtEnd(s[i + 1..])
  }

  /** A text is its first segment, and if there is more, a slash and the tail. */
  lemma {:induction false} Cut(s: string)
    ensures IsSegment(s[..Slash(s)])
    ensures Slash(s) == |s| ==> s == s[..Slash(s)]
    ensures Slash(s) < |s| ==> s == s[..Slash(s)] + "/" + s[Slash(s) + 1..]
  {
    hide Slash;
  }

  lemma WalkSegment(out: string, segment: string, tail: string)
    requires IsSegment(segment)
    ensures Walk(out, segment + "/" + tail) == if segment == "." then Walk(out, tail)
                                               else if segment == ".." then Walk(PopText(out), tail)
                                               else Walk(out + segment + "/", tail)
    ensures Walk(out, segment) == if segment == "." then out
                                  else if segment == ".." then PopText(out) else out + segment
  {
    SplitFirst(segment, tail);
    var s := segment + "/" + tail;
    assert s[..|segment|] == segment && s[|segment| + 1..] == tail && segment[..|segment|] == segment;
  }

  lemma DotsSegment(segment: string, tail: string)
    requires IsSegment(segment)
    ensures DotFree(segment + "/" + tail) <==> segment != "." && DotFree(tail)
    ensures DotsAtEnd(segment + "/" + tail) <==> segment != "." && DotsAtEnd(tail)
    ensures DotsAtEnd(segment) && (DotFree(segment) <==> segment != ".")
  {
    SplitFirst(segment, tail);
    var s := segment + "/" + tail;
    assert s[..|segment|] == segment && s[|segment| + 1..] == tail && segment[..|segment|] == segment;
  }

  /** A character that begins no segment is kept. */
  lemma StripKeeps(c: char, rest: string)
    ensures Strip([c] + rest, false) == [c] + Strip(rest, c == '/')
  {
    assert ([c] + rest)[1..] == rest;
  }

  lemma StripEmpty()
    ensures Strip("", false) == ""
  {
  }

  lemma {:induction false} StripInside(segment: string, tail: string)
    requires IsSegment(segment)
    ensures Strip(segment + "/" + tail, false) == segment + "/" + Strip(tail, true)
    ensures Strip(segment, false) == segment
    decreases |segment|
  {
    hide Strip;
    if segment == "" {
      assert segment + "/" + tail == ['/'] + tail && "/" + Strip(tail, true) == ['/'] + Strip(tail, true);
      StripKeeps('/', tail);
      StripEmpty();
    } else {
      var c, rest := segment[0], segment[1..];
      StripInside(rest, tail);
      assert segment == [c] + rest;
      assert segment + "/" + tail == [c] + (rest + "/" + tail);
      StripKeeps(c, rest + "/" + tail);
      StripKeeps(c, rest);
      assert [c] + (rest + "/" + Strip(tail, true)) == segment + "/" + Strip(tail, true);
    }
  }

  /** Stripping, one segment at a time. */
  lemma StripSegment(segment: string, tail: string)
    requires IsSegment(segment)
    ensures Strip(segment + "/" + tail, true) == if segment == "." then Strip(tail, true)
                                                 else segment + "/" + Strip(tail, true)
    ensures Strip(segment, true) == segment
  {
    var s := segment + "/" + tail;
    StripInside(segment, tail);
    if segment == "." {
      assert s[0] == '.' && s[1] == '/' && s[2..] == tail;
    } else {
      assert |segment| >= 2 ==> s[1] == segment[1];
      assert |segment| == 1 ==> s[0] == segment[0] && segment == [segment[0]];
      StripAnyStart(s);
    }
    StripAnyStart(segment);
  }

  lemma StripAnyStart(rest: string)
    requires !(|rest| >= 2 && rest[0] == '.' && rest[1] == '/')
    ensures Strip(rest, true) == Strip(rest, false)
  {
  }

  lemma {:induction false} StripKeepsWalk(out: string, rest: string)
    ensures Walk(out, Strip(rest, true)) == Walk(out, rest)
    ensures DotsAtEnd(Strip(rest, true))
    decreases |rest|
  {
    hide Strip, Walk, DotsAtEnd, PopText;
    Cut(rest);
    var i := Slash(rest);
    var segment := rest[..i];
    if i < |rest| {
      var tail := rest[i + 1..];
      StripSegment(segment, tail);
      WalkSegment(out, segment, tail);
      WalkSegment(out, segment, Strip(tail, true));
      DotsSegment(segment, Strip(tail, true));
      StripKeepsWalk(out, tail);
      StripKeepsWalk(PopText(out), tail);
      StripKeepsWalk(out + segment + "/", tail);
    } else {
      StripSegment(segment, "");
      DotsSegment(segment, "");
    }
  }

  function DropLastDot(s: string): (r: string)
    ensures |r| <= |s|
  {
    if s == "." || (|s| > 1 && s[|s| - 1] == '.' && s[|s| - 2] == '/') then s[..|s| - 1] else s
  }

  lemma DropSegment(segment: string, tail: string)
    requires IsSegment(segment)
    ensures DropLastDot(segment + "/" + tail) == segment + "/" + DropLastDot(tail)
    ensures DropLastDot(segment) == if segment == "." then "" else segment
  {
    var s := segment + "/" + tail;
    if |tail| > 1 {
      assert s[|s| - 1] == tail[|tail| - 1] && s[|s| - 2] == tail[|tail| - 2];
      assert s[..|s| - 1] == segment + "/" + tail[..|tail| - 1];
    } else if |tail| == 1 {
      assert s[|s| - 1] == tail[0] && s[|s| - 2] == '/' && tail == [tail[0]];
      assert s[..|s| - 1] == segment + "/" + "";
    } else {
      assert s[|s| - 1] == '/' && tail == "";
    }
    assert |segment| > 1 ==> segment[|segment| - 2] != '/';
  }

  lemma {:induction false} DropKeepsWalk(out: string, s: string)
    requires DotsAtEnd(s)
    ensures Walk(out, DropLastDot(s)) == Walk(out, s)
    ensures DotFree(DropLastDot(s))
    decreases |s|
  {
    hide DropLastDot, Walk, DotsAtEnd, DotFree, PopText;
    Cut(s);
    var i := Slash(s);
    var segment := s[..i];
    if i < |s| {
      var tail := s[i + 1..];
      DropSegment(segment, tail);
      DotsSegment(segment, tail);
      DotsSegment(segment, DropLastDot(tail));
      WalkSegment(out, segment, tail);
      WalkSegment(out, segment, DropLastDot(tail));
      DropKeepsWalk(PopText(out), tail);
      DropKeepsWalk(out + segment + "/", tail);
    } else {
      DropSegment(segment, "");
      WalkSegment(out, segment, "");
      WalkSegment(out, "", "");
      DotsSegment(segment, "");
      DotsSegment("", "");
      assert out + "" == out;
    }
  }

  // ----- The third pass: "../" ------------------------------------------------------------

  predicate StartsUp(s: string) {
    |s| >= 3 && s[0] == '.' && s[1] == '.' && s[2] == '/'
  }

  /** The text up to some segment is finished, and the scan stands at `l` in that segment. */
  ghost predicate Reading(stack: seq<string>, t: string, l: nat, meaning: string) {
    var b := |Join(stack)|;
    && Segments(stack) && NoDots(stack)
    && b <= l <= |t| && t[..b] == Join(stack) && IsSegment(t[b..l])
    && DotFree(t[b..]) && Walk(Join(stack), t[b..]) == meaning
    && (l > b ==> !StartsUp(t[b..]))
  }

  lemma Begin(t: string)
    requires DotFree(t)
    ensures Reading([], t, 0, Walk("", t))
  {
    assert t[0..] == t;
  }

  /** One more character of an ordinary segment. */
  lemma Advance(stack: seq<string>, t: string, l: nat, meaning: string)
    requires Reading(stack, t, l, meaning) && l < |t| && t[l] != '/'
    requires !(l == |Join(stack)| && StartsUp(t[l..]))
    ensures Reading(stack, t, l + 1, meaning)
  {
    hide Walk, DotFree, Join;
    var b := |Join(stack)|;
    assert t[b..l + 1] == t[b..l] + [t[l]];
  }

  /** The slash that ends an ordinary segment. */
  lemma Finish(stack: seq<string>, t: string, l: nat, meaning: string)
    requires Reading(stack, t, l, meaning) && l < |t| && t[l] == '/'
    ensures Reading(stack + [t[|Join(stack)|..l]], t, l + 1, meaning)
  {
    hide Walk, DotFree, Join, StartsUp;
    var b := |Join(stack)|;
    var segment, tail := t[b..l], t[l + 1..];
    SlashSplits(t, b, l);
    WalkSegment(Join(stack), segment, tail);
    DotsSegment(segment, tail);
    JoinPush(stack, segment);
  }

  lemma SlashSplits(t: string, b: nat, l: nat)
    requires b <= l < |t| && t[l] == '/'
    ensures t[b..] == t[b..l] + "/" + t[l + 1..] && t[..l + 1] == t[..b] + t[b..l] + "/" && t[l + 1..l + 1] == ""
    ensures t[b..l] == ".." ==> l > b && StartsUp(t[b..])
  {
    if t[b..l] == ".." { assert t[b..l][0] == t[b] && t[b..l][1] == t[b + 1]; }
  }

  lemma JoinPush(stack: seq<string>, segment: string)
    ensures Join(stack + [segment]) == Join(stack) + segment + "/"
  {
    assert (stack + [segment])[..|stack|] == stack;
  }

  /** What a text that starts with "../" means. */
  lemma UpMeans(out: string, s: string)
    requires StartsUp(s)
    ensures Walk(out, s) == Walk(PopText(out), s[3..])
    ensures DotFree(s) ==> DotFree(s[3..])
  {
    hide Walk, DotFree, PopText;
    UpSplits(s);
    WalkSegment(out, "..", s[3..]);
    DotsSegment("..", s[3..]);
  }

  lemma PopKeeps(stack: seq<string>)
    requires Segments(stack) && NoDots(stack)
    ensures Segments(Pop(stack)) && NoDots(Pop(stack))
  {
  }

  lemma PopIsShorter(stack: seq<string>)
    requires Segments(stack)
    ensures Join(Pop(stack)) == PopText(Join(stack)) && |Join(Pop(stack))| <= |Join(stack)|
  {
    PopIsPopText(stack);
  }

  /** Reading starts anew behind what has been joined. */
  lemma StartReading(stack: seq<string>, tail: string)
    requires Segments(stack) && NoDots(stack) && DotFree(tail)
    ensures Reading(stack, Join(stack) + tail, |Join(stack)|, Walk(Join(stack), tail))
  {
    hide Walk, DotFree, Join;
    var t, b := Join(stack) + tail, |Join(stack)|;
    assert t[..b] == Join(stack) && t[b..] == tail && t[b..b] == "";
  }

  /** A ".." segment takes the segment before it along. */
  lemma GoUp(stack: seq<string>, t: string, meaning: string)
    requires Reading(stack, t, |Join(stack)|, meaning) && StartsUp(t[|Join(stack)|..])
    ensures var b, up := |Join(stack)|, Join(Pop(stack));
      && |up| <= b && up == PopText(Join(stack))
      && Reading(Pop(stack), up + t[b + 3..], |up|, meaning)
  {
    hide Walk, DotFree, PopText, Join, Pop, Segments, NoDots;
    var b := |Join(stack)|;
    assert t[b..][3..] == t[b + 3..];
    UpMeans(Join(stack), t[b..]);
    PopKeeps(stack);
    PopIsShorter(stack);
    StartReading(Pop(stack), t[b + 3..]);
  }

  lemma UpSplits(s: string)
    requires StartsUp(s)
    ensures s == ".." + "/" + s[3..]
  {
  }

  /** What the whole text means once it has been read. */
  lemma AtEnd(stack: seq<string>, t: string, meaning: string)
    requires Reading(stack, t, |t|, meaning)
    ensures var b := |Join(stack)|;
      meaning == if t[b..] == ".." then PopText(t[..b]) else t
  {
    hide DotFree, PopText;
    var b := |Join(stack)|;
    assert t[b..|t|] == t[b..];
    WalkSegment(Join(stack), t[b..], "");
    DotsSegment(t[b..], "");
    assert t == t[..b] + t[b..];
  }

  /** One more character, of whatever kind, that is not the start of a "../". */
  lemma ReadOn(stack: seq<string>, t: string, l: nat, meaning: string) returns (next: seq<string>)
    requires Reading(stack, t, l, meaning) && l < |t| && !(l == |Join(stack)| && StartsUp(t[l..]))
    ensures Reading(next, t, l + 1, meaning)
  {
    next := stack;
    if t[l] == '/' {
      Finish(stack, t, l, meaning);
      next := stack + [t[|Join(stack)|..l]];
    } else {
      Advance(stack, t, l, meaning);
    }
  }

  /** Nothing before the first dot needs a look. */
  lemma {:induction false} SkipDotless(t: string, f: nat) returns (stack: seq<string>)
    requires DotFree(t) && f <= |t| && forall i :: 0 <= i < f ==> t[i] != '.'
    ensures Reading(stack, t, f, Walk("", t))
    decreases f
  {
    hide Reading, Walk, Join, DotFree;
    if f == 0 {
      Begin(t);
      stack := [];
    } else {
      stack := SkipDotless(t, f - 1);
      assert !StartsUp(t[f - 1..]);
      stack := ReadOn(stack, t, f - 1, Walk("", t));
    }
  }

  /** The characters that make the third pass act. */
  predicate SeesUp(t: string, l: nat) {
    l + 2 < |t| && t[l] == '.' && t[l + 1] == '.' && t[l + 2] == '/' && (l == 0 || t[l - 1] == '/')
  }

  lemma SeesUpIs(stack: seq<string>, t: string, l: nat, meaning: string)
    requires Reading(stack, t, l, meaning)
    ensures SeesUp(t, l) <==> l == |Join(stack)| && StartsUp(t[l..])
  {
    hide Walk, DotFree;
    var b := |Join(stack)|;
    JoinAtStart(stack);
    if l > b { assert t[b..l][l - 1 - b] == t[l - 1]; }
    if l == b && b > 0 { assert t[..b][b - 1] == t[b - 1]; }
  }

  /** The characters that make the fourth pass act. */
  predicate SeesLastUp(t: string) {
    var l := |t|;
    t == ".." || (l > 2 && t[l - 1] == '.' && t[l - 2] == '.' && t[l - 3] == '/')
  }

  lemma SeesLastUpIs(stack: seq<string>, t: string, meaning: string)
    requires Reading(stack, t, |t|, meaning)
    ensures SeesLastUp(t) <==> t[|Join(stack)|..] == ".."
    ensures SeesLastUp(t) ==> |Join(stack)| == |t| - 2
  {
    hide Walk, DotFree;
    var b, l := |Join(stack)|, |t|;
    JoinAtStart(stack);
    assert t[b..l] == t[b..];
    if b > 0 { assert t[..b][b - 1] == t[b - 1] == '/'; }
    assert l > 2 && b < l - 2 ==> t[b..l][l - 3 - b] == t[l - 3];
    assert SeesLastUp(t) ==> b == l - 2;
    if t[b..] == ".." { assert t[b..][0] == t[b] && t[b..][1] == t[b + 1]; }
  }

  // ----- In place -----------------------------------------------------------------------------

  /** A NUL-terminated string of length `n`. */
  ghost predicate CString(a: array<char>, n: nat)
    reads a
  {
    n < a.Length && a[n] == '\0' && forall i :: 0 <= i < n ==> a[i] != '\0'
  }

  ghost predicate SameFrom(a: seq<char>, b: seq<char>, n: nat) {
    |a| == |b| && forall i :: n <= i < |a| ==> a[i] == b[i]
  }

  method FindDot(a: array<char>, ghost n: nat) returns (f: nat)
    requires CString(a, n)
    ensures f <= n && forall i :: 0 <= i < f ==> a[i] != '.'
  {
    f := 0;
    while a[f] != '\0' && a[f] != '.'
      invariant f <= n && forall i :: 0 <= i < f ==> a[i] != '.'
      decreases n - f
    {
      f := f + 1;
    }
  }

  /** Whether position `l` of the text begins a segment. */
  predicate Begins(t: string, l: nat)
    requires l <= |t|
  {
    l == 0 || t[l - 1] == '/'
  }

  /** What is left of the text from position `l` on once "./" segments are dropped. */
  function Rest(t: string, l: nat): string
    requires l <= |t|
  {
    Strip(t[l..], Begins(t, l))
  }

  /** First pass: drops "./" segments from the first dot on. */
  method DropDots(a: array<char>, f: nat, ghost n: nat) returns (w: nat)
    requires CString(a, n) && f <= n && forall i :: 0 <= i < f ==> a[i] != '.'
    modifies a
    ensures f <= w <= n && a[..w] == Strip(old(a[..n]), true) && forall i :: 0 <= i < w ==> a[i] != '\0'
    ensures SameFrom(a[..], old(a[..]), n) && a[..f] == old(a[..f])
  {
    hide Strip, Begins, Rest;
    ghost var t := a[..n];
    var l := f;
    w := f;
    StripDotless(t, f);
    while a[l] != '\0'
      invariant f <= w <= l <= n && forall i :: 0 <= i < w ==> a[i] != '\0'
      invariant forall i :: w <= i < a.Length ==> a[i] == old(a[i])
      invariant l > 0 ==> a[l - 1] == old(a[l - 1])
      invariant a[..f] == old(a[..f])
      invariant a[..w] + Rest(t, l) == Strip(t, true)
      decreases n - l
    {
      StripStep(t, l);
      BeginsIs(t, l);
      if a[l] == '.' && a[l + 1] == '/' && (l == 0 || a[l - 1] == '/') {
        l := l + 2;
      } else {
        ghost var before := a[..w];
        a[w] := a[l];
        assert a[..w + 1] == before + [t[l]];
        OneMore(before, t[l], Rest(t, l + 1));
        w := w + 1;
        l := l + 1;
      }
    }
    RestNothing(t);
    assert a[..w] + "" == a[..w];
  }

  lemma OneMore(before: string, c: char, rest: string)
    ensures before + ([c] + rest) == before + [c] + rest
  {
  }

  lemma BeginsIs(t: string, l: nat)
    requires l <= |t|
    ensures Begins(t, l) <==> l == 0 || t[l - 1] == '/'
  {
  }

  lemma RestNothing(t: string)
    ensures Rest(t, |t|) == ""
  {
  }

  lemma StripStep(t: string, l: nat)
    requires l < |t|
    ensures if t[l] == '.' && l + 1 < |t| && t[l + 1] == '/' && Begins(t, l)
            then Begins(t, l + 2) && Rest(t, l) == Rest(t, l + 2)
            else Rest(t, l) == [t[l]] + Rest(t, l + 1)
  {
    var rest := t[l..];
    assert rest[0]
           == t[l] && rest[1..] == t[l + 1..] && (|rest| >= 2 ==> rest[1] == t[l + 1] && rest[2..] == t[l + 2..]);
  }

  lemma {:induction false} StripDotless(t: string, f: nat)
    requires f <= |t| && forall i :: 0 <= i < f ==> t[i] != '.'
    ensures t[..f] + Rest(t, f) == Strip(t, true)
    decreases f
  {
    if f > 0 {
      StripDotless(t, f - 1);
      assert t[f - 1..][0] == t[f - 1] && t[f - 1..][1..] == t[f..];
      assert t[..f] == t[..f - 1] + [t[f - 1]];
    } else {
      assert t[0..] == t;
    }
  }

  /** Second pass: drops a last "." segment and ends the string. */
  method DropLast(a: array<char>, length: nat) returns (w: nat)
    requires length < a.Length && forall i :: 0 <= i < length ==> a[i] != '\0'
    modifies a
    ensures w <= length && CString(a, w) && a[..w] == DropLastDot(old(a[..length]))
    ensures w < length ==> old(a[w]) == '.'
    ensures a[..w] == old(a[..w]) && forall i :: w < i < a.Length ==> a[i] == old(a[i])
  {
    w := length;
    if w == 1 && a[0] == '.' {
      w := w - 1;
    } else if w > 1 && a[w - 1] == '.' && a[w - 2] == '/' {
      w := w - 1;
    }
    ghost var t := a[..length];
    assert length == 1 ==> t == [t[0]];
    a[w] := '\0';
  }

  /** Moves the rest of the string, with its NUL, from `from` down to `to`. */
  method MoveDown(a: array<char>, to: nat, from: nat, ghost n: nat)
    requires CString(a, n) && to < from <= n
    modifies a
    ensures CString(a, n - (from - to)) && a[..n - (from - to)] == old(a[..to]) + old(a[from..n])
    ensures SameFrom(a[..], old(a[..]), n)
  {
    var i, j := to, from;
    while true
      invariant to <= i && j == i + (from - to) && j <= n
      invariant forall k :: 0 <= k < to ==> a[k] == old(a[k])
      invariant forall k :: to <= k < i ==> a[k] == old(a[k + (from - to)])
      invariant forall k :: i <= k < a.Length ==> a[k] == old(a[k])
      decreases n - j
    {
      a[i] := a[j];
      if a[i] == '\0' { break; }
      i, j := i + 1, j + 1;
    }
  }

  /** The beginning of the segment before position `l`. */
  method SegmentBefore(a: array<char>, l: nat) returns (j: nat)
    requires l <= a.Length
    ensures j <= l && a[..j] == PopText(a[..l])
  {
    if l < 2 {
      j := 0;
      assert l == 1 ==> Start(a[..l], 0) == 0;
    } else {
      var k: int := l - 2;
      while k >= 0 && a[k] != '/'
        invariant -1 <= k <= l - 2
        invariant forall i :: k < i <= l - 2 ==> a[i] != '/'
      {
        k := k - 1;
      }
      j := k + 1;
      StartIs(a[..l], l - 1, j);
      assert a[..l][..j] == a[..j];
    }
  }

  /** Third pass: drops each "../" with the segment before it. */
  method DropUps(a: array<char>, f: nat, ghost n: nat, ghost before: seq<string>, ghost meaning: string)
    returns (l: nat, ghost stack: seq<string>)
    requires CString(a, n) && f <= n && Reading(before, a[..n], f, meaning)
    modifies a
    ensures l <= n && CString(a, l) && Reading(stack, a[..l], l, meaning)
    ensures SameFrom(a[..], old(a[..]), n)
  {
    hide Reading, PopText;
    l, stack := f, before;
    ghost var m := n;
    while a[l] != '\0'
      invariant l <= m <= n && CString(a, m) && Reading(stack, a[..m], l, meaning)
      invariant SameFrom(a[..], old(a[..]), n)
      decreases m, m - l
    {
      ghost var t := a[..m];
      SeesUpIs(stack, t, l, meaning);
      if a[l] == '.' && a[l + 1] == '.' && a[l + 2] == '/' && (l == 0 || a[l - 1] == '/') {
        assert SeesUp(t, l);
        l, m := TakeUp(a, l, m, stack, meaning);
        stack := Pop(stack);
      } else {
        assert !SeesUp(t, l);
        stack := ReadOn(stack, t, l, meaning);
        l := l + 1;
      }
    }
  }

  /** Removes the "../" at `l` and the segment before it. */
  method TakeUp(a: array<char>, l: nat, ghost n: nat, ghost stack: seq<string>, ghost meaning: string) returns (to: nat,
      ghost m: nat)
    requires CString(a, n) && l <= n && Reading(stack, a[..n], l, meaning)
    requires l == |Join(stack)| && StartsUp(a[..n][l..])
    modifies a
    ensures to <= m < n && CString(a, m) && Reading(Pop(stack), a[..m], to, meaning)
    ensures SameFrom(a[..], old(a[..]), n)
  {
    hide Reading, PopText, Join;
    ghost var t := a[..n];
    ReadingText(stack, t, l, meaning);
    GoUp(stack, t, meaning);
    to := SegmentBefore(a, l);
    assert a[..l] == t[..l];
    assert a[..to] == Join(Pop(stack));
    assert a[l + 3..n] == t[l + 3..];
    MoveDown(a, to, l + 3, n);
    m := n - (l + 3 - to);
  }

  lemma ReadingText(stack: seq<string>, t: string, l: nat, meaning: string)
    requires Reading(stack, t, l, meaning) && l == |Join(stack)|
    ensures t[..l] == Join(stack)
  {
  }

  /** Fourth pass: a last ".." goes with the segment before it. */
  method DropLastUp(a: array<char>, l: nat, ghost stack: seq<string>, ghost meaning: string) returns (ghost n: nat)
    requires CString(a, l) && Reading(stack, a[..l], l, meaning)
    modifies a
    ensures n <= l && CString(a, n) && a[..n] == meaning
    ensures forall i :: l <= i < a.Length ==> a[i] == old(a[i])
  {
    hide Reading, PopText, Join;
    ghost var t := a[..l];
    AtEnd(stack, t, meaning);
    SeesLastUpIs(stack, t, meaning);
    n := l;
    if l == 2 && a[0] == '.' && a[1] == '.' {
      assert t == "..";
      assert |Join(stack)| == 0 && t[..0] == "";
      NothingToPop();
      a[0] := '\0';
      n := 0;
    } else if l > 2 && a[l - 1] == '.' && a[l - 2] == '.' && a[l - 3] == '/' {
      assert SeesLastUp(t);
      var j := SegmentBefore(a, l - 2);
      assert a[..l - 2] == t[..l - 2];
      a[j] := '\0';
      n := j;
    } else {
      assert !SeesLastUp(t);
    }
  }

  lemma NothingToPop()
    ensures PopText("") == ""
  {
  }

  /** The four passes: the string in the buffer becomes its reduction, and nothing
      behind its old end is touched. */
  method GetParents(a: array<char>, ghost n: nat) returns (ghost m: nat)
    requires CString(a, n)
    modifies a
    ensures m <= n && CString(a, m) && a[..m] == Reduced(old(a[..n]))
    ensures SameFrom(a[..], old(a[..]), n)
  {
    hide Strip, Walk, Reduced, DotFree, DotsAtEnd, DropLastDot, Reading;
    ghost var path := a[..n];
    ReducedIsWalk(path);
    var f := FindDot(a, n);
    var w := DropDots(a, f, n);
    StripKeepsWalk("", path);
    DropKeepsWalk("", Strip(path, true));
    w := DropLast(a, w);
    ghost var t := a[..w];
    assert forall i :: 0 <= i < f ==> path[i] != '.';
    ghost var stack := SkipDotless(t, f);
    var l;
    l, stack := DropUps(a, f, w, stack, Reduced(path));
    m := DropLastUp(a, l, stack, Reduced(path));
  }
}
