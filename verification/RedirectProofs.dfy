/** Redirect resolution against RFC 3986: dot-segment removal refines section 5.2.4 with one exact
 exception, and relative references resolve as section 5.2.2 says without leaving the origin. */
module RedirectProofs {
  import opened Results
  import opened Text
  import opened Urls
  import opened UrlProofs
  import opened Redirects

  // ---------- Section 5.2.4, as written ----------

  /** "Remove the last segment and its preceding '/' (if any) from the output buffer." */
  function DropLastSegment(output: string): string {
    var slash := LastOf(output, '/');
    if slash < 0 then "" else output[..slash]
  }

  /** Steps A to E of the loop over the input buffer. */
  function RemoveDotSegments524(input: string, output: string): string
    decreases |input|
  {
    if input == "" then output
    else if StartsWith(input, "../") then RemoveDotSegments524(input[3..], output)
    else if StartsWith(input, "./") then RemoveDotSegments524(input[2..], output)
    else if StartsWith(input, "/./") then RemoveDotSegments524(input[2..], output)
    else if input == "/." then RemoveDotSegments524("/", output)
    else if StartsWith(input, "/../") then RemoveDotSegments524(input[3..], DropLastSegment(output))
    else if input == "/.." then RemoveDotSegments524("/", DropLastSegment(output))
    else if input == "." || input == ".." then output
    else
      var next := Until(input, if input[0] == '/' then 1 else 0, "/");
      RemoveDotSegments524(input[next..], output + input[..next])
  }

  // ---------- The same, segment by segment ----------

  /** '/' before each segment. */
  function Slashed(segments: seq<string>): string {
    if segments == [] then "" else "/" + (segments[0] + Slashed(segments[1..]))
  }

  lemma {:induction false} SlashedIsJoin(segments: seq<string>)
    requires segments != []
    ensures Slashed(segments) == "/" + Join(segments, '/')
  {
    if |segments| > 1 {
      SlashedIsJoin(segments[1..]);
      assert ['/'] == "/";
    } else {
      assert segments[0] + "" == segments[0];
    }
  }

  lemma {:induction false} SlashedAppend(segments: seq<string>, one: string)
    ensures Slashed(segments + [one]) == Slashed(segments) + ("/" + one)
  {
    if segments == [] {
      assert segments + [one] == [one];
      assert one + "" == one;
    } else {
      var rest := segments[1..];
      assert (segments + [one])[1..] == rest + [one];
      SlashedAppend(rest, one);
      Regroup(segments[0], Slashed(rest), "/" + one);
      Regroup("/", segments[0] + Slashed(rest), "/" + one);
    }
  }

  lemma LastSlash(front: string, last: string)
    requires Lacks(last, '/')
    ensures LastOf(front + ("/" + last), '/') == |front| && (front + ("/" + last))[..|front|] == front
  {
    var s := front + ("/" + last);
    assert s[|front|] == '/';
    assert forall j :: |front| < j < |s| ==> s[j] == last[j - |front| - 1];
    LastBeforeIs(s, '/', |s|, |front|);
    CutAtSeam(front, "/" + last);
  }

  lemma DropSlashed(kept: seq<string>)
    requires AllLack(kept, '/')
    ensures DropLastSegment(Slashed(kept)) == Slashed(if kept == [] then [] else kept[..|kept| - 1])
  {
    hide LastOf;
    if kept != [] {
      var front, last := kept[..|kept| - 1], kept[|kept| - 1];
      assert kept == front + [last];
      SlashedAppend(front, last);
      LastSlash(Slashed(front), last);
    }
  }

  /** The four prefix tests on a rooted text, character by character. */
  lemma DotPrefixes(input: string)
    requires input != "" && input[0] == '/'
    ensures !StartsWith(input, "../") && !StartsWith(input, "./")
    ensures StartsWith(input, "/./") <==> |input| >= 3 && input[1] == '.' && input[2] == '/'
    ensures StartsWith(input, "/../") <==> |input| >= 4 && input[1] == '.' && input[2] == '.' && input[3] == '/'
  {
    hide StartsWith;
    var up, here, one, two := "../", "./", "/./", "/../";
    StartsChars(input, up);
    StartsChars(input, here);
    StartsChars(input, one);
    StartsChars(input, two);
    assert up[0] == '.' && here[0] == '.';
    assert one[0] == '/' && one[1] == '.' && one[2] == '/';
    assert two[0] == '/' && two[1] == '.' && two[2] == '.' && two[3] == '/';
  }

  lemma SingleDot(tail: string, output: string)
    requires tail == "" || tail[0] == '/'
    ensures RemoveDotSegments524("/" + ("." + tail), output)
            == RemoveDotSegments524(if tail == "" then "/" else tail, output)
  {
    hide DropLastSegment, Until, StartsWith;
    var input := "/" + ("." + tail);
    assert input[0] == '/' && input[1] == '.' && input[2..] == tail && (tail != "" ==> input[2] == tail[0]);
    DotPrefixes(input);
    assert tail == "" ==> input == "/.";
  }

  lemma DoubleDot(tail: string, output: string)
    requires tail == "" || tail[0] == '/'
    ensures RemoveDotSegments524("/" + (".." + tail), output)
            == RemoveDotSegments524(if tail == "" then "/" else tail, DropLastSegment(output))
  {
    hide DropLastSegment, Until, StartsWith;
    var input := "/" + (".." + tail);
    assert input[0] == '/' && input[1] == '.' && input[2] == '.' && input[3..] == tail &&
           (tail != "" ==> input[3] == tail[0]);
    DotPrefixes(input);
    assert tail == "" ==> input == "/..";
  }

  /** None of the dot cases applies: the first segment moves to the output. */
  predicate IsPlain(input: string) {
    && !StartsWith(input, "/./") && !StartsWith(input, "/../") && input != "/." && input != "/.."
    && !StartsWith(input, "../") && !StartsWith(input, "./") && input != "." && input != ".."
  }

  lemma MoveSegment(segment: string, tail: string, output: string)
    requires Lacks(segment, '/') && (tail == "" || tail[0] == '/') && IsPlain("/" + (segment + tail))
    ensures RemoveDotSegments524("/" + (segment + tail), output) == RemoveDotSegments524(tail, output + ("/" + segment))
  {
    hide DropLastSegment, StartsWith;
    var input := "/" + (segment + tail);
    assert forall j :: 1 <= j < 1 + |segment| ==> input[j] == segment[j - 1];
    assert tail != "" ==> input[1 + |segment|] == '/';
    UntilIs(input, 1, "/", 1 + |segment|);
    Regroup("/", segment, tail);
    CutAtSeam("/" + segment, tail);
  }

  lemma PlainSegment(segment: string, tail: string)
    requires Lacks(segment, '/') && (tail == "" || tail[0] == '/') && !IsDot(segment)
    ensures IsPlain("/" + (segment + tail))
  {
    hide StartsWith;
    var input := "/" + (segment + tail);
    assert input[0] == '/' && |input| == 1 + |segment| + |tail|;
    assert forall j :: 0 <= j < |segment| ==> input[1 + j] == segment[j];
    assert tail != "" ==> input[1 + |segment|] == '/';
    DotPrefixes(input);
    assert |segment| == 1 ==> segment == [segment[0]];
    assert |segment| == 2 ==> segment == [segment[0], segment[1]];
    var one, two := "/.", "/..";
    assert one[1] == '.' && two[1] == '.' && two[2] == '.';
  }

  /** What the algorithm makes of a segment that is not last, and of one that is. */
  lemma OneSegment(segment: string, tail: string, output: string)
    requires Lacks(segment, '/') && (tail == "" || tail[0] == '/')
    ensures RemoveDotSegments524("/" + (segment + tail), output) ==
            if segment == "." then RemoveDotSegments524(if tail == "" then "/" else tail, output)
            else if segment == ".." then RemoveDotSegments524(if tail == "" then "/" else tail, DropLastSegment(output))
            else RemoveDotSegments524(tail, output + ("/" + segment))
  {
    hide RemoveDotSegments524;
    var input := "/" + (segment + tail);
    if segment == "." {
      SingleDot(tail, output);
    } else if segment == ".." {
      DoubleDot(tail, output);
    } else {
      PlainSegment(segment, tail);
      MoveSegment(segment, tail, output);
    }
  }

  lemma JustSlash(output: string)
    ensures RemoveDotSegments524("/", output) == output + "/"
  {
    assert "/"[..1] == "/" && "/"[1..] == "";
    UntilIs("/", 1, "/", 1);
  }

  /** A dot segment at the very end leaves an empty segment behind. */
  function WithEnd(segments: seq<string>, kept: seq<string>): seq<string> {
    if segments != [] && IsDot(segments[|segments| - 1]) then kept + [""] else kept
  }

  lemma PushLacks(kept: seq<string>, segment: string, c: char)
    requires AllLack(kept, c) && Lacks(segment, c)
    ensures AllLack(Push(kept, segment), c)
  {
  }

  lemma {:induction false} SurvivorsLack(segments: seq<string>, kept: seq<string>, c: char)
    requires AllLack(segments, c) && AllLack(kept, c)
    ensures AllLack(Survivors(segments, kept), c)
  {
    if segments != [] {
      PushLacks(kept, segments[0], c);
      SurvivorsLack(segments[1..], Push(kept, segments[0]), c);
    }
  }

  lemma SlashedNone()
    ensures Slashed([]) == ""
  {
  }

  lemma SlashedNotEmpty(segments: seq<string>)
    requires segments != []
    ensures Slashed(segments) != "" && Slashed(segments)[0] == '/'
  {
  }

  /** The algorithm's step on the first segment, on the segments kept. */
  lemma OneStep(s: string, rest: seq<string>, kept: seq<string>)
    requires Lacks(s, '/') && AllLack(kept, '/')
    ensures RemoveDotSegments524(Slashed([s] + rest), Slashed(kept)) ==
            RemoveDotSegments524(if rest == [] && IsDot(s) then "/" else Slashed(rest), Slashed(Push(kept, s)))
  {
    hide RemoveDotSegments524, DropLastSegment, Lacks;
    assert ([s] + rest)[1..] == rest;
    if rest != [] {
      SlashedNotEmpty(rest);
    }
    OneSegment(s, Slashed(rest), Slashed(kept));
    DropSlashed(kept);
    SlashedAppend(kept, s);
  }

  lemma EndOfPath(output: string)
    ensures RemoveDotSegments524("", output) == output
  {
  }

  /** What is left of the input after the last segment. */
  lemma LastStep(s: string, next: seq<string>)
    ensures RemoveDotSegments524(if IsDot(s) then "/" else "", Slashed(next)) == Slashed(WithEnd([s], next))
  {
    hide RemoveDotSegments524, Slashed;
    JustSlash(Slashed(next));
    SlashedAppend(next, "");
    EndOfPath(Slashed(next));
    assert "/" + "" == "/";
  }

  lemma {:induction false} SegmentwiseRfc(segments: seq<string>, kept: seq<string>)
    requires segments != [] && AllLack(segments, '/') && AllLack(kept, '/')
    ensures RemoveDotSegments524(Slashed(segments), Slashed(kept))
            == Slashed(WithEnd(segments, Survivors(segments, kept)))
    decreases |segments|
  {
    hide RemoveDotSegments524, Survivors, IsDot, Slashed, Push;
    var s, rest := segments[0], segments[1..];
    var next := Push(kept, s);
    SurvivorsStep(segments, kept);
    PushLacks(kept, s, '/');
    assert segments == [s] + rest;
    OneStep(s, rest, kept);
    if rest == [] {
      SlashedNone();
      LastStep(s, next);
      assert segments == [s];
    } else {
      SegmentwiseRfc(rest, next);
      SlashedNotEmpty(rest);
    }
  }

  // ---------- Refinement ----------

  /** The path ends in a dot segment and the last segment to survive is empty. */
  predicate EndsInLostSegment(path: string) {
    var segments, kept := Segments(path), Survivors(Segments(path), []);
    IsDot(segments[|segments| - 1]) && kept != [] && kept[|kept| - 1] == ""
  }

  lemma AbsolutePath(path: string)
    requires path != "" && path[0] == '/'
    ensures path == Slashed(Segments(path)) && AllLack(Segments(path), '/')
  {
    JoinSplit(path, 1, '/');
    SplitLacks(path, 1, '/');
    SlashedIsJoin(Segments(path));
  }

  lemma SlashedLast(kept: seq<string>)
    requires kept != [] && AllLack(kept, '/')
    ensures var t := Slashed(kept); t != "" && (t[|t| - 1] == '/' <==> kept[|kept| - 1] == "")
  {
    var front, last := kept[..|kept| - 1], kept[|kept| - 1];
    assert kept == front + [last];
    SlashedAppend(front, last);
    var t := Slashed(kept);
    if last != "" {
      assert t[|t| - 1] == last[|last| - 1];
    } else {
      assert t[|t| - 1] == "/"[0];
    }
  }

  lemma LastText(front: string, last: string)
    requires Lacks(last, '/')
    ensures KeepsTrailingSlash(front + ("/" + last)) <==> last == "" || IsDot(last)
  {
    hide EndsWith;
    var s, n := front + ("/" + last), |front|;
    var two, three := "/.", "/..";
    assert s[n] == '/' && |s| == n + 1 + |last|;
    assert forall j :: 0 <= j < |last| ==> s[n + 1 + j] == last[j];
    EndsChars(s, two);
    EndsChars(s, three);
    assert two[0] == '/' && two[1] == '.' && three[0] == '/' && three[1] == '.' && three[2] == '.';
    assert |last| == 1 ==> last == [last[0]];
    assert |last| == 2 ==> last == [last[0], last[1]];
    if |last| >= 1 {
      assert s[|s| - 1] == last[|last| - 1];
    }
    if |last| >= 2 {
      assert s[|s| - 2] == last[|last| - 2];
    }
    if |last| >= 3 {
      assert s[|s| - 3] == last[|last| - 3];
    }
  }

  /** The source's three tests on the text are tests on the last segment. */
  lemma TrailingSlashBySegment(segments: seq<string>)
    requires segments != [] && AllLack(segments, '/')
    ensures var last := segments[|segments| - 1];
            KeepsTrailingSlash(Slashed(segments)) <==> last == "" || IsDot(last)
  {
    hide KeepsTrailingSlash, Slashed, IsDot, Lacks;
    var front, last := segments[..|segments| - 1], segments[|segments| - 1];
    assert segments == front + [last];
    SlashedAppend(front, last);
    LastText(Slashed(front), last);
  }

  /** What is kept ends as the path ends, when the path does not end in a dot segment. */
  lemma {:induction false} SurvivorsLast(segments: seq<string>, kept: seq<string>)
    requires segments != [] && !IsDot(segments[|segments| - 1])
    ensures var all := Survivors(segments, kept); all != [] && all[|all| - 1] == segments[|segments| - 1]
    decreases |segments|
  {
    if |segments| > 1 {
      SurvivorsLast(segments[1..], Push(kept, segments[0]));
    } else {
      assert Survivors(segments[1..], Push(kept, segments[0])) == Push(kept, segments[0]);
    }
  }

  /** The result, written with one '/' before each segment. */
  lemma WithoutDotsText(path: string)
    requires path != "" && path[0] == '/'
    ensures var kept := Survivors(Segments(path), []);
            WithoutDots(path) == Slashed(if kept == [] then [""]
                                         else if EndsInLostSegment(path) then kept
                                         else WithEnd(Segments(path), kept))
  {
    hide KeepsTrailingSlash, Survivors, Segments;
    var segments, kept := Segments(path), Survivors(Segments(path), []);
    AbsolutePath(path);
    TrailingSlashBySegment(segments);
    SurvivorsLack(segments, [], '/');
    if kept == [] {
      assert "/" + Join([], '/') == "/" == Slashed([""]);
    } else {
      SlashedIsJoin(kept);
      SlashedLast(kept);
      SlashedAppend(kept, "");
      assert "/" + "" == "/";
      if !IsDot(segments[|segments| - 1]) {
        SurvivorsLast(segments, []);
      }
    }
  }

  lemma SurvivorsOfNone(segments: seq<string>)
    requires segments != [] && Survivors(segments, []) == []
    ensures IsDot(segments[|segments| - 1])
  {
    if !IsDot(segments[|segments| - 1]) {
      SurvivorsLast(segments, []);
    }
  }

  /** Dot-segment removal agrees with section 5.2.4 on a path exactly unless it ends in a lost segment. */
  lemma DotSegmentsRefine(path: string)
    requires path != "" && path[0] == '/'
    ensures WithoutDots(path) == RemoveDotSegments524(path, "") <==> !EndsInLostSegment(path)
  {
    hide WithoutDots, RemoveDotSegments524, Survivors, Segments;
    var segments, kept := Segments(path), Survivors(Segments(path), []);
    AbsolutePath(path);
    WithoutDotsText(path);
    SegmentwiseRfc(segments, []);
    SlashedAppend(kept, "");
    if kept == [] {
      SurvivorsOfNone(segments);
      assert [] + [""] == [""];
    }
  }

  lemma WitnessSegments()
    ensures Segments("/a//.") == ["a", "", "."]
  {
    hide Until;
    var path := "/a//.";
    UntilIs(path, 1, "/", 2);
    UntilIs(path, 3, "/", 3);
    UntilIs(path, 4, "/", 5);
    assert ['/'] == "/" && path[1..2] == "a" && path[3..3] == "" && path[4..] == ".";
    assert SplitFrom(path, 4, '/') == ["."];
    assert SplitFrom(path, 3, '/') == ["", "."];
  }

  lemma WitnessSurvivors()
    ensures Survivors(["a", "", "."], []) == ["a", ""]
  {
    assert ["a", "", "."][1..] == ["", "."] && ["", "."][1..] == ["."] && ["."][1..] == [];
    assert Push([], "a") == ["a"] && Push(["a"], "") == ["a", ""] && Push(["a", ""], ".") == ["a", ""];
    assert Survivors([], ["a", ""]) == ["a", ""];
    assert Survivors(["."], ["a", ""]) == ["a", ""];
    assert Survivors(["", "."], ["a"]) == ["a", ""];
  }

  /** The exception does happen: "/a//." loses its empty last segment. */
  lemma LostSegmentWitness()
    ensures EndsInLostSegment("/a//.")
    ensures WithoutDots("/a//.") != RemoveDotSegments524("/a//.", "")
  {
    hide WithoutDots, RemoveDotSegments524;
    WitnessSegments();
    WitnessSurvivors();
    DotSegmentsRefine("/a//.");
  }

  // ---------- The result has no dots left ----------

  predicate NoDots(segments: seq<string>) {
    forall i :: 0 <= i < |segments| ==> !IsDot(segments[i])
  }

  lemma {:induction false} SurvivorsNoDots(segments: seq<string>, kept: seq<string>)
    requires NoDots(kept)
    ensures NoDots(Survivors(segments, kept))
  {
    if segments != [] {
      SurvivorsNoDots(segments[1..], Push(kept, segments[0]));
    }
  }

  lemma {:induction false} NothingToRemove(segments: seq<string>, kept: seq<string>)
    requires NoDots(segments)
    ensures Survivors(segments, kept) == kept + segments
    decreases |segments|
  {
    if segments == [] {
      assert kept + segments == kept;
    } else {
      NothingToRemove(segments[1..], kept + [segments[0]]);
      assert kept + segments == (kept + [segments[0]]) + segments[1..];
    }
  }

  lemma SegmentsOfSlashed(kept: seq<string>)
    requires kept != [] && AllLack(kept, '/')
    ensures Slashed(kept) != "" && Slashed(kept)[0] == '/' && Segments(Slashed(kept)) == kept
  {
    SlashedIsJoin(kept);
    CutAtSeam("/", Join(kept, '/'));
    SplitFromJoin(Slashed(kept), 1, kept, '/');
  }

  lemma CleanStaysClean(parts: seq<string>)
    requires parts != [] && NoDots(parts) && AllLack(parts, '/')
    ensures WithoutDots(Slashed(parts)) == Slashed(parts)
  {
    hide WithoutDots, Survivors, Segments;
    SegmentsOfSlashed(parts);
    NothingToRemove(parts, []);
    assert [] + parts == parts;
    WithoutDotsText(Slashed(parts));
  }

  /** The result is rooted, holds no dot segment, and is left alone by a second removal. */
  lemma DotSegmentsGone(path: string)
    requires path != "" && path[0] == '/'
    ensures var clean := WithoutDots(path);
            clean != "" && clean[0] == '/' && NoDots(Segments(clean)) && WithoutDots(clean) == clean
  {
    hide WithoutDots, Segments, Survivors, EndsInLostSegment;
    var kept := Survivors(Segments(path), []);
    AbsolutePath(path);
    WithoutDotsText(path);
    SurvivorsLack(Segments(path), [], '/');
    SurvivorsNoDots(Segments(path), []);
    var parts := if kept == [] then [""] else if EndsInLostSegment(path) then kept else WithEnd(Segments(path), kept);
    assert parts != [] && NoDots(parts) && AllLack(parts, '/');
    SegmentsOfSlashed(parts);
    CleanStaysClean(parts);
  }

  // ---------- Reference resolution ----------

  /** The path of a reference without scheme and authority, and its query: section 4.2 of RFC 3986. */
  function ReferencePath(location: string): string { location[..Until(location, 0, "?#")] }

  function ReferenceQuery(location: string): Option<string> {
    var at := Until(location, 0, "?#");
    if at < |location| && location[at] == '?' then Some(BeforeFragment(location[at + 1..])) else None
  }

  /** Section 5.2.3, for a base that has an authority. */
  function Merge523(basePath: string, path: string): string {
    if basePath == "" then "/" + path
    else var slash := LastOf(basePath, '/'); (if slash < 0 then "" else basePath[..slash + 1]) + path
  }

  function WithQuery(path: string, query: Option<string>): string {
    path + if query.Some? then "?" + query.value else ""
  }

  /** Section 5.2.2 for a reference with neither scheme nor authority, with `clean` for dot removal: the target. */
  function Target522(base: Parts, location: string, clean: string -> string): string {
    var path, query := ReferencePath(location), ReferenceQuery(location);
    if path == "" then WithQuery(base.path, if query.Some? then query else base.query)
    else if path[0] == '/' then WithQuery(clean(path), query)
    else WithQuery(clean(Merge523(base.path, path)), query)
  }

  /** The path whose dot segments a reference has removed, if any. */
  function DottedPath(base: Parts, location: string): string {
    var path := ReferencePath(location);
    if path != "" && path[0] == '/' then path else Merge523(base.path, path)
  }

  predicate IsRelative(location: string) {
    location != "" && SchemeEnd(location) < 0 && !StartsWith(location, "//")
  }

  lemma FragmentOfSum(head: string, tail: string)
    requires Lacks(head, '#')
    ensures BeforeFragment(head + tail) == head + BeforeFragment(tail)
    ensures Lacks(BeforeFragment(tail), '#')
  {
    var k := Until(tail, 0, "#");
    UntilRun(tail, 0, "#");
    var s := head + tail;
    assert forall j :: 0 <= j < |head| + k ==> s[j] == if j < |head| then head[j] else tail[j - |head|];
    assert k < |tail| ==> s[|head| + k] == tail[k];
    UntilIs(s, 0, "#", |head| + k);
    assert s[..|head| + k] == head + tail[..k];
  }

  /** The part of a reference from its query on, without the fragment. */
  lemma SuffixWithoutFragment(location: string)
    ensures var at := Until(location, 0, "?#");
            BeforeFragment(location[at..]) == if ReferenceQuery(location).Some?
              then "?" + ReferenceQuery(location).value else ""
  {
    hide Until;
    var at := Until(location, 0, "?#");
    var suffix := location[at..];
    if at == |location| {
      assert suffix == "";
    } else if location[at] == '#' {
      UntilIs(suffix, 0, "#", 0);
    } else {
      assert suffix == "?" + location[at + 1..];
      FragmentOfSum("?", location[at + 1..]);
    }
  }

  lemma MergedIs523(base: Parts, path: string)
    requires ValidParts(base) && path != ""
    ensures path[0] == '/' ==> Merged(base.path, path) == path
    ensures path[0] != '/' ==> Merged(base.path, path) == Merge523(base.path, path)
    ensures Merged(base.path, path) != "" && Merged(base.path, path)[0] == '/'
  {
    hide ValidAuthority, EscapesFrom;
    var slash := LastOf(base.path, '/');
    LastBeforeRun(base.path, '/', |base.path|);
    assert path[..1] == [path[0]];
    assert slash >= 0;
    assert base.path[..slash + 1][0] == '/';
  }

  lemma OriginChars(p: Parts)
    requires ValidParts(p)
    ensures Lacks(Origin(p), '#')
  {
    hide HostPort, IsForbidden, EscapesFrom, ValidAuthority;
    HostPortChars(p);
    assert forall i :: 0 <= i < |Origin(p)| ==> Origin(p)[i] == if i < 7 then "http://"[i] else HostPort(p)[i - 7];
  }

  lemma ForbiddenFails(s: string)
    requires HasForbidden(s)
    ensures ParseUrl(s) == Err(InvalidUrl)
  {
    hide ParseRest, Find;
  }

  lemma ForbiddenTarget(origin: string, target: string)
    requires Lacks(target, '#') && !AllUrlChars(target)
    ensures HasForbidden(origin + target)
  {
    var i :| 0 <= i < |target| && !UrlChar(target[i]);
    assert (origin + target)[|origin| + i] == target[i];
  }

  /** A candidate made of the base's origin and a rooted target. */
  lemma ValidatedOnOrigin(base: Parts, target: string, candidate: string)
    requires ValidParts(base) && Lacks(target, '#') && target != "" && target[0] == '/'
    requires BeforeFragment(candidate) == Origin(base) + target
    ensures var s := Origin(base) + target;
            if AllUrlChars(target) && EscapesFrom(target, 0)
            then && Validated(candidate) == Ok(s) && Lacks(s, '#') && ParseUrl(s).Ok?
                 && var q := ParseUrl(s).value;
                 && q.host == base.host && q.port == base.port && q.explicitPort == base.explicitPort
                 && q.ipv6 == base.ipv6 && q.Target() == target
            else Validated(candidate) == Err(InvalidUrl)
  {
    hide ParseUrl, Origin, EscapesFrom, WithTarget, ValidAuthority, Until, AllUrlChars, HasForbidden;
    if AllUrlChars(target) {
      OriginPlus(base, target);
      var a := Authority(base.host, base.port, base.explicitPort, base.ipv6);
      WithTargetValid(a, target);
      WithTargetKeeps(a, target);
      OriginChars(base);
      LacksGlue(Origin(base), target, '#');
    } else {
      ForbiddenTarget(Origin(base), target);
      ForbiddenFails(Origin(base) + target);
    }
  }

  lemma FirstIsNotStop(location: string)
    requires location != "" && location[0] != '#' && location[0] != '?'
    ensures Until(location, 0, "?#") > 0
  {
  }

  lemma TwoHeads(o: string, path: string, tail: string)
    requires Lacks(o, '#') && Lacks(path, '#')
    ensures BeforeFragment(o + path + tail) == o + (path + BeforeFragment(tail))
    ensures Lacks(path + BeforeFragment(tail), '#')
  {
    hide BeforeFragment;
    var head := o + path;
    assert forall i :: 0 <= i < |head| ==> head[i] == if i < |o| then o[i] else path[i - |o|];
    FragmentOfSum(head, tail);
    Regroup(o, path, BeforeFragment(tail));
    var t := path + BeforeFragment(tail);
    assert forall i :: 0 <= i < |t| ==> t[i] == if i < |path| then path[i] else BeforeFragment(tail)[i - |path|];
  }

  lemma MergedLacksHash(base: Parts, path: string)
    requires ValidParts(base) && forall j :: 0 <= j < |path| ==> path[j] !in "?#"
    ensures Lacks(Merged(base.path, path), '#')
  {
    hide ValidAuthority, EscapesFrom;
    assert forall j :: 0 <= j < |path| ==> path[j] != "?#"[1];
  }

  lemma {:induction false} SlashedLacks(segments: seq<string>, c: char)
    requires c != '/' && AllLack(segments, c)
    ensures Lacks(Slashed(segments), c)
  {
    if segments != [] {
      SlashedLacks(segments[1..], c);
    }
  }

  lemma {:induction false} SplitKeepsLacks(s: string, from: nat, c: char)
    requires from <= |s| && Lacks(s, c)
    ensures AllLack(SplitFrom(s, from, '/'), c)
    decreases |s| - from
  {
    var end := Until(s, from, ['/']);
    if end < |s| {
      SplitKeepsLacks(s, end + 1, c);
    }
  }

  lemma CleanLacksHash(path: string)
    requires path != "" && path[0] == '/' && Lacks(path, '#')
    ensures Lacks(WithoutDots(path), '#')
  {
    hide WithoutDots, Survivors, EndsInLostSegment;
    var kept := Survivors(Segments(path), []);
    WithoutDotsText(path);
    SplitKeepsLacks(path, 1, '#');
    SurvivorsLack(Segments(path), [], '#');
    var parts := if kept == [] then [""] else if EndsInLostSegment(path) then kept else WithEnd(Segments(path), kept);
    SlashedLacks(parts, '#');
  }

  /** The candidate a relative location yields is the base's origin and this target, up to its fragment. */
  lemma CandidateTarget(base: Parts, location: string) returns (candidate: string)
    requires ValidParts(base) && IsRelative(location)
    ensures Resolved(base, location) == Validated(candidate)
    ensures var t := Target522(base, location, WithoutDots);
            BeforeFragment(candidate) == Origin(base) + t && Lacks(t, '#') && t != "" && t[0] == '/'
  {
    hide Validated, WithoutDots, Origin, ValidAuthority, EscapesFrom, Until, SchemeEnd;
    var at := Until(location, 0, "?#");
    var suffix := location[at..];
    var o := Origin(base);
    SuffixWithoutFragment(location);
    TargetParses(base);
    OriginChars(base);
    FragmentOfSum("", suffix);
    if location[0] == '#' || location[0] == '?' {
      UntilIs(location, 0, "?#", 0);
      assert suffix == location;
      var path := if location[0] == '#' then base.Target() else base.path;
      candidate := o + path + location;
      Regroup(o, path, location);
      TwoHeads(o, path, location);
      assert location[0] == '#' ==> path + "" == path;
      assert ReferencePath(location) == "";
    } else {
      var path := location[..at];
      FirstIsNotStop(location);
      MergedIs523(base, path);
      var merged := Merged(base.path, path);
      var clean := WithoutDots(merged);
      DotSegmentsGone(merged);
      UntilRun(location, 0, "?#");
      MergedLacksHash(base, path);
      CleanLacksHash(merged);
      candidate := o + clean + suffix;
      TwoHeads(o, clean, suffix);
    }
  }

  /**
   A relative location resolves if and only if its target, that of section 5.2.2 with the library's own dot-segment
   removal, has no forbidden byte and only whole escapes; the error is InvalidUrl if not. If it does, it keeps the
   base's host, port, port flag and IPv6 flag, has that target, and no fragment.
   */
  lemma RelativeKeepsOrigin(base: Parts, location: string)
    requires ValidParts(base) && IsRelative(location)
    ensures var t := Target522(base, location, WithoutDots);
            if AllUrlChars(t) && EscapesFrom(t, 0)
            then && Resolved(base, location) == Ok(Origin(base) + t)
                 && var s := Origin(base) + t;
                 && Lacks(s, '#') && ParseUrl(s).Ok?
                 && var q := ParseUrl(s).value;
                 && q.host == base.host && q.port == base.port && q.explicitPort == base.explicitPort
                 && q.ipv6 == base.ipv6 && q.Target() == t
            else Resolved(base, location) == Err(InvalidUrl)
  {
    hide Resolved, Target522, Validated, ParseUrl, Origin, WithoutDots, IsRelative, ValidParts, EscapesFrom,
         AllUrlChars;
    var candidate := CandidateTarget(base, location);
    ValidatedOnOrigin(base, Target522(base, location, WithoutDots), candidate);
  }

  lemma SameTail(a: string, b: string, tail: string)
    ensures a + tail == b + tail <==> a == b
  {
    if a + tail == b + tail {
      CutAtSeam(a, tail);
      CutAtSeam(b, tail);
      assert |a + tail| == |b + tail|;
    }
  }

  /** That target is the one of section 5.2.2 itself, exactly unless the dotted path ends in a lost segment. */
  lemma TargetRefines(base: Parts, location: string)
    requires ValidParts(base) && IsRelative(location)
    ensures Target522(base, location, WithoutDots) == Target522(base, location, p => RemoveDotSegments524(p, ""))
            <==> ReferencePath(location) == "" || !EndsInLostSegment(DottedPath(base, location))
  {
    hide WithoutDots, RemoveDotSegments524, EndsInLostSegment, ValidAuthority, EscapesFrom;
    var path, query := ReferencePath(location), ReferenceQuery(location);
    if path != "" {
      MergedIs523(base, path);
      var dotted := DottedPath(base, location);
      DotSegmentsRefine(dotted);
      var tail := if query.Some? then "?" + query.value else "";
      SameTail(WithoutDots(dotted), RemoveDotSegments524(dotted, ""), tail);
    }
  }

  /** Whatever it resolves to, a redirect URL parses. */
  lemma ResolvedParses(base: Parts, location: string)
    requires Resolved(base, location).Ok?
    ensures ParseUrl(Resolved(base, location).value).Ok? && Lacks(Resolved(base, location).value, '#')
  {
    hide ParseUrl, Origin, WithoutDots, SchemeEnd, Merged, BeforeFragment, IEquals;
    forall candidate: string ensures Lacks(BeforeFragment(candidate), '#') {
      FragmentOfSum("", candidate);
    }
  }

  /** A location with a scheme, or the scheme put before one that starts with "//". */
  function AbsoluteText(location: string): string {
    if SchemeEnd(location) >= 0 then location else "http:" + location
  }

  lemma WithEndKeeps(segments: seq<string>, kept: seq<string>)
    requires NoDots(kept) && AllLack(kept, '/')
    ensures NoDots(WithEnd(segments, kept)) && AllLack(WithEnd(segments, kept), '/')
    ensures NoDots(segments) ==> WithEnd(segments, kept) == kept
  {
  }

  /** Section 5.2.4 leaves a rooted path alone if and only if it has no dot segment. */
  lemma NothingToRemove524(path: string)
    requires path != "" && path[0] == '/'
    ensures RemoveDotSegments524(path, "") == path <==> NoDots(Segments(path))
  {
    hide RemoveDotSegments524, Segments, Survivors, Slashed, IsDot;
    var segments, kept := Segments(path), Survivors(Segments(path), []);
    var after := WithEnd(segments, kept);
    AbsolutePath(path);
    SlashedNone();
    SegmentwiseRfc(segments, []);
    SurvivorsLack(segments, [], '/');
    SurvivorsNoDots(segments, []);
    WithEndKeeps(segments, kept);
    if after != [] {
      SegmentsOfSlashed(after);
    }
    if NoDots(segments) {
      NothingToRemove(segments, []);
      assert [] + segments == segments;
    }
  }

  /** Some text of the URL grammar prints as `text`. */
  ghost predicate IsUrlText(text: string) {
    exists t: UrlText, p: Parts :: t.Print() == text && IsUrl(t, p)
  }

  /** The error for a text that is no URL, in a redirect. */
  ghost predicate IsUrlError(text: string, e: ErrorCode) {
    var i := Find(text, "://");
    if HasForbidden(text) || i <= 0 then e == InvalidUrl
    else if !IEquals(text[..i], "http") then e == UnsupportedRedirectScheme
    else e == if HasBadPort(AuthorityOf(text)) then InvalidPort else InvalidUrl
  }

  lemma ValidatedExact(candidate: string)
    ensures var text := BeforeFragment(candidate);
            if IsUrlText(text) then Validated(candidate) == Ok(text)
            else Validated(candidate).Err? && IsUrlError(text, Validated(candidate).error)
  {
    hide ParseUrl, BeforeFragment, IsUrl, UrlText.Print, Find, IEquals, HasForbidden, HasBadPort;
    var text := BeforeFragment(candidate);
    NoGrammar(text);
    if ParseUrl(text).Err? {
      FailsExact(text, ParseUrl(text).error);
    }
  }

  /**
   A location that names its authority resolves, whatever the base, if and only if its scheme is "http" in any case
   or missing, and its text without its fragment is a URL; then it resolves to that text. The scheme error is for
   another scheme, and for a text whose first "://" is not right after its scheme. Section 5.2.2 removes the dot
   segments of such a location too: the two targets agree if and only if its path has none.
   */
  lemma AbsoluteAsWritten(base: Parts, location: string)
    requires !IsRelative(location)
    ensures var text, scheme := BeforeFragment(AbsoluteText(location)), SchemeEnd(location);
            if location == "" then Resolved(base, location) == Err(MissingRedirectLocation)
            else if scheme >= 0 && !IEquals(location[..scheme], "http")
            then Resolved(base, location) == Err(UnsupportedRedirectScheme)
            else if !IsUrlText(text)
            then Resolved(base, location).Err? && IsUrlError(text, Resolved(base, location).error)
            else && Resolved(base, location) == Ok(text) && ParseUrl(text).Ok?
                 && var p := ParseUrl(text).value;
                 p.Target() == WithQuery(RemoveDotSegments524(p.path, ""), p.query) <==> NoDots(Segments(p.path))
  {
    hide ParseUrl, RemoveDotSegments524, BeforeFragment, WithoutDots, IEquals, SchemeEnd, NoDots, Segments, Validated,
         ValidAuthority, EscapesFrom, IsUrlText, IsUrlError;
    ValidatedExact(AbsoluteText(location));
    if Resolved(base, location).Ok? {
      ResolvedParses(base, location);
      var text := BeforeFragment(AbsoluteText(location));
      var p := ParseUrl(text).value;
      ParseValid(text);
      NothingToRemove524(p.path);
      SameTail(p.path, RemoveDotSegments524(p.path, ""), if p.query.Some? then "?" + p.query.value else "");
    }
  }

  lemma NoForbiddenHere()
    ensures !HasForbidden("http:x://y")
  {
  }

  /** The scheme error with the right scheme: in "http:x://y" the first "://" is not the one after it. */
  lemma SchemeWitness(base: Parts)
    ensures SchemeEnd("http:x://y") == 4 && IEquals("http", "http")
    ensures Resolved(base, "http:x://y") == Err(UnsupportedRedirectScheme)
  {
    hide ParseUrl, Find, SchemeEnd, HasForbidden, IsUrlText;
    var s := "http:x://y";
    SchemeEndExact(s, 4);
    assert s[..4] == "http";
    UntilIs(s, 0, "#", |s|);
    assert s[..|s|] == s;
    forall j | 0 <= j < 6 ensures !At(s, "://", j) {
      AtStart(s, "://", j);
      assert s[5] != "://"[1];
    }
    assert s[6] == "://"[0] && s[7] == "://"[1] && s[8] == "://"[2];
    FindIs(s, "://", 6);
    NoForbiddenHere();
    assert |s[..6]| != |"http"|;
    FailsExact(s, UnsupportedScheme);
  }

  lemma WitnessParts(h: Parts)
    requires h == Parts("h", 80, false, false, "/a/../b", None)
    ensures ValidAuthority(h.host, h.port, h.explicitPort, h.ipv6) && AllUrlChars("/a/../b") &&
            EscapesFrom("/a/../b", 0)
    ensures Origin(h) == "http://h" && h.Target() == "/a/../b"
  {
    var t := "/a/../b";
    assert EscapesFrom(t, 7) && EscapesFrom(t, 6) && EscapesFrom(t, 5) && EscapesFrom(t, 4) && EscapesFrom(t, 3) &&
           EscapesFrom(t, 2);
    assert "h" + "" == "h" && t + "" == t;
  }

  lemma WitnessTarget(a: Authority)
    requires a == Authority("h", 80, false, false)
    ensures WithTarget(a, "/a/../b") == Parts("h", 80, false, false, "/a/../b", None)
  {
    hide Until;
    UntilIs("/a/../b", 0, "?", 7);
    assert "/a/../b"[..7] == "/a/../b";
  }

  lemma WitnessFragment()
    ensures BeforeFragment("http://h/a/../b") == "http://h/a/../b"
    ensures SchemeEnd("//h/a/../b") == NPOS && StartsWith("//h/a/../b", "//")
  {
    hide Until;
    var s := "http://h/a/../b";
    UntilIs(s, 0, "#", |s|);
    assert s[..|s|] == s;
    StartsChars("//h/a/../b", "//");
  }

  lemma DropToNothing()
    ensures DropLastSegment("/a") == ""
  {
    hide LastOf;
    LastSlash("", "a");
    assert "" + ("/" + "a") == "/a";
  }

  lemma WitnessRemoval()
    ensures RemoveDotSegments524("/a/../b", "") == "/b"
  {
    hide RemoveDotSegments524, DropLastSegment;
    assert "/a/../b" == "/" + ("a" + "/../b") && "/../b" == "/" + (".." + "/b") && "/b" == "/" + ("b" + "");
    OneSegment("a", "/../b", "");
    OneSegment("..", "/b", "/a");
    OneSegment("b", "", "");
    EndOfPath("/b");
    LastSlash("", "a");
    assert "" + ("/" + "a") == "/a" && "" + ("/" + "b") == "/b";
    DropToNothing();
  }

  /** Such a location does exist: "//h/a/../b" keeps "/a/../b" where section 5.2.2 has "/b". */
  lemma AbsoluteWitness(base: Parts)
    ensures Resolved(base, "//h/a/../b") == Ok("http://h/a/../b")
    ensures var p := ParseUrl("http://h/a/../b");
            && p.Ok? && p.value.Target() == "/a/../b" &&
               WithQuery(RemoveDotSegments524(p.value.path, ""), p.value.query) == "/b"
  {
    hide ParseUrl, RemoveDotSegments524, BeforeFragment, EscapesFrom, WithTarget, Origin, Until;
    var h := Parts("h", 80, false, false, "/a/../b", None);
    WitnessParts(h);
    OriginPlus(h, "/a/../b");
    var a := Authority("h", 80, false, false);
    assert WithTarget(a, "/a/../b") == h by { WitnessTarget(a); }
    assert "http:" + "//h/a/../b" == "http://h/a/../b" == Origin(h) + "/a/../b";
    WitnessFragment();
    WitnessRemoval();
  }
}
