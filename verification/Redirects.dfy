/** Redirect resolution (src/http/redirect.cpp): dot-segment removal, reference resolution, and the
 method and body rules. */
module Redirects {
  import opened Results
  import opened Text
  import opened Heads
  import opened Urls
  import UrlProofs

  // ---------- Statuses ----------

  predicate IsRedirectStatus(status: nat) {
    status == 301 || status == 302 || status == 303 || status == 307 || status == 308
  }

  datatype Behavior = Behavior(newMethod: Method, preserveBody: bool)

  function RedirectBehavior(status: nat, current: Method): Behavior {
    if status == 303 then Behavior(if current == Head then Head else Get, false)
    else if (status == 301 || status == 302) && current == Post then Behavior(Get, false)
    else Behavior(current, true)
  }

  // ---------- Scheme ----------

  predicate IsSchemeChar(c: char) { IsDigit(c) || IsAlpha(c) || c == '+' || c == '-' || c == '.' }

  function SchemeEndFrom(s: string, i: nat): (r: int)
    ensures r == NPOS || i <= r < |s|
    decreases |s| - i
  {
    if i >= |s| then NPOS
    else if s[i] == ':' then i
    else if IsSchemeChar(s[i]) then SchemeEndFrom(s, i + 1)
    else NPOS
  }

  /** The ':' that ends a scheme at the front of `s`, or NPOS. */
  function SchemeEnd(s: string): (r: int)
    ensures r == NPOS || 0 < r < |s|
  {
    if s == "" || !IsAlpha(s[0]) then NPOS else SchemeEndFrom(s, 1)
  }

  lemma {:induction false} SchemeRun(s: string, from: nat, i: nat)
    requires from <= i
    ensures SchemeEndFrom(s, from) == i <==>
            i < |s| && s[i] == ':' && forall j :: from <= j < i ==> IsSchemeChar(s[j])
    decreases i - from
  {
    if from < i {
      SchemeRun(s, from + 1, i);
      assert from < |s| ==> (s[from] == ':' ==> !IsSchemeChar(s[from]));
    }
  }

  /** A scheme ends at `i` if and only if it is a letter, then letters, digits, '+', '-' or '.', then the ':' at `i`. */
  lemma SchemeEndExact(s: string, i: nat)
    ensures SchemeEnd(s) == i <==>
            0 < i < |s| && IsAlpha(s[0]) && s[i] == ':' && forall j :: 0 < j < i ==> IsSchemeChar(s[j])
  {
    hide IsSchemeChar;
    if i > 0 {
      SchemeRun(s, 1, i);
    }
  }

  method FindScheme(value: string) returns (r: int)
    ensures r == SchemeEnd(value)
  {
    if value == "" || !IsAlpha(value[0]) {
      return NPOS;
    }
    for index := 1 to |value|
      invariant SchemeEndFrom(value, index) == SchemeEndFrom(value, 1)
    {
      var ch := value[index];
      if ch == ':' {
        return index;
      }
      if ch == '/' || ch == '?' || ch == '#' {
        return NPOS;
      }
      if !IsSchemeChar(ch) {
        return NPOS;
      }
    }
    return NPOS;
  }

  // ---------- Dot segments ----------

  predicate IsDot(segment: string) { segment == "." || segment == ".." }

  function Segments(path: string): (parts: seq<string>)
    ensures parts != []
  {
    SplitFrom(path, if path != "" && path[0] == '/' then 1 else 0, '/')
  }

  /** What one more segment does to the segments kept so far. */
  function Push(kept: seq<string>, segment: string): seq<string> {
    if segment == ".." then (if kept == [] then [] else kept[..|kept| - 1])
    else if segment == "." then kept
    else kept + [segment]
  }

  /** The segments that survive. */
  function Survivors(segments: seq<string>, kept: seq<string>): seq<string> {
    if segments == [] then kept else Survivors(segments[1..], Push(kept, segments[0]))
  }

  predicate EndsWith(s: string, tail: string) { |s| >= |tail| && s[|s| - |tail|..] == tail }

  predicate KeepsTrailingSlash(path: string) {
    path != "" && (path[|path| - 1] == '/' || EndsWith(path, "/.") || EndsWith(path, "/.."))
  }

  function WithoutDots(path: string): string {
    var normalized := "/" + Join(Survivors(Segments(path), []), '/');
    if KeepsTrailingSlash(path) && normalized[|normalized| - 1] != '/' then normalized + "/" else normalized
  }

  lemma SplitFromStep(s: string, begin: nat)
    requires begin <= |s|
    ensures var end := Until(s, begin, "/"); var parts := SplitFrom(s, begin, '/');
            && parts[0] == s[begin..end]
            && (if end == |s| then parts[1..] == [] else parts[1..] == SplitFrom(s, end + 1, '/'))
  {
    hide Until;
    assert ['/'] == "/";
  }

  lemma SurvivorsStep(segments: seq<string>, kept: seq<string>)
    requires segments != []
    ensures Survivors(segments, kept) == Survivors(segments[1..], Push(kept, segments[0]))
    ensures Survivors([], Push(kept, segments[0])) == Push(kept, segments[0])
  {
  }

  /** The loop that writes the segments with '/' between them. */
  method JoinSegments(segments: seq<string>) returns (normalized: string)
    ensures normalized == "/" + Join(segments, '/')
  {
    hide Join;
    normalized := "/";
    JoinFew([], '/');
    for index := 0 to |segments|
      invariant normalized == "/" + Join(segments[..index], '/')
    {
      ghost var before := normalized;
      assert segments[..index + 1] == segments[..index] + [segments[index]];
      if index != 0 {
        normalized := normalized + "/";
      }
      normalized := normalized + segments[index];
      JoinedSoFar("/", before, segments[..index], segments[index], normalized, '/');
    }
    assert segments[..|segments|] == segments;
  }

  method RemoveDotSegments(path: string) returns (normalized: string)
    ensures normalized == WithoutDots(path)
  {
    hide Until, Join, SplitFrom, Survivors, EndsWith;
    var segments: seq<string> := [];
    var begin := if path == "" || path[0] != '/' then 0 else 1;
    while begin <= |path|
      invariant begin <= |path| + 1
      invariant Survivors(Segments(path), []) ==
                if begin <= |path| then Survivors(SplitFrom(path, begin, '/'), segments) else segments
    {
      var end := Until(path, begin, "/");
      SplitFromStep(path, begin);
      var segment := path[begin..end];
      SurvivorsStep(SplitFrom(path, begin, '/'), segments);
      if segment == ".." {
        if segments != [] {
          segments := segments[..|segments| - 1];
        }
      } else if segment != "." {
        segments := segments + [segment];
      }
      begin := end + 1;
    }
    normalized := JoinSegments(segments);
    var endsWithDot := EndsWith(path, "/.");
    var endsWithDotDot := EndsWith(path, "/..");
    var keepTrailingSlash := path != "" && (path[|path| - 1] == '/' || endsWithDot || endsWithDotDot);
    if keepTrailingSlash && normalized[|normalized| - 1] != '/' {
      normalized := normalized + "/";
    }
  }

  // ---------- Reference resolution ----------

  predicate StartsWith(s: string, head: string) { |head| <= |s| && s[..|head|] == head }

  lemma StartsChars(s: string, head: string)
    ensures StartsWith(s, head) <==> |head| <= |s| && forall j :: 0 <= j < |head| ==> s[j] == head[j]
  {
    if |head| <= |s| {
      assert forall j :: 0 <= j < |head| ==> s[..|head|][j] == s[j];
    }
  }

  lemma EndsChars(s: string, tail: string)
    ensures EndsWith(s, tail) <==> |tail| <= |s| && forall j :: 0 <= j < |tail| ==> s[|s| - |tail| + j] == tail[j]
  {
    if |tail| <= |s| {
      var t := s[|s| - |tail|..];
      assert forall j :: 0 <= j < |tail| ==> t[j] == s[|s| - |tail| + j];
    }
  }

  /** Strips the fragment and keeps the candidate if it is a URL. */
  function Validated(candidate: string): Result<string> {
    var url := BeforeFragment(candidate);
    match ParseUrl(url)
    case Ok(_) => Ok(url)
    case Err(e) => Err(if e == UnsupportedScheme then UnsupportedRedirectScheme else e)
  }

  /** The base path up to its last '/', then the relative path. */
  function Merged(basePath: string, relative: string): string {
    if StartsWith(relative, "/") then relative
    else
      var slash := LastOf(basePath, '/');
      (if slash < 0 then "/" else basePath[..slash + 1]) + relative
  }

  function Resolved(base: Parts, location: string): Result<string> {
    var scheme := SchemeEnd(location);
    if location == "" then Err(MissingRedirectLocation)
    else if scheme >= 0 then
      (if IEquals(location[..scheme], "http") then Validated(location) else Err(UnsupportedRedirectScheme))
    else if StartsWith(location, "//") then Validated("http:" + location)
    else if location[0] == '#' then Validated(UrlProofs.Origin(base) + base.Target() + location)
    else if location[0] == '?' then Validated(UrlProofs.Origin(base) + base.path + location)
    else
      var suffix := Until(location, 0, "?#");
      Validated(UrlProofs.Origin(base) + WithoutDots(Merged(base.path, location[..suffix])) + location[suffix..])
  }

  method BuildOrigin(base: Url, ghost parts: Parts) returns (origin: string)
    requires base.Represents(parts)
    ensures origin == UrlProofs.Origin(parts)
  {
    hide Numeral;
    origin := "http://";
    if base.hostIsIpv6Literal {
      origin := origin + "[";
      origin := origin + base.Host();
      origin := origin + "]";
      assert origin == "http://" + ("[" + parts.host + "]");
    } else {
      origin := origin + base.Host();
    }
    if base.hasExplicitPort {
      var port := ToChars(base.port);
      ghost var host := if parts.ipv6 then "[" + parts.host + "]" else parts.host;
      Regroup("http://" + host, ":", port);
      Regroup("http://", host, ":" + port);
      origin := origin + ":";
      origin := origin + port;
    } else {
      ghost var host := if parts.ipv6 then "[" + parts.host + "]" else parts.host;
      assert host + "" == host;
    }
  }

  method ValidateRedirectUrl(candidate: string) returns (r: Result<string>)
    ensures r == Validated(candidate)
  {
    hide ParseUrl;
    var stripped := candidate;
    var fragment := FindChar(candidate, '#');
    FragmentCut(candidate);
    if fragment >= 0 {
      stripped := candidate[..fragment];
    }
    var parsed := Parse(stripped);
    match parsed
    case Ok(_) => return Ok(stripped);
    case Err(e) => return Err(if e == UnsupportedScheme then UnsupportedRedirectScheme else e);
  }

  method ResolveRedirectLocation(base: Url, location: string, ghost parts: Parts) returns (r: Result<string>)
    requires base.Represents(parts)
    ensures r == Resolved(parts, location)
  {
    hide Validated, WithoutDots, SchemeEnd, Until, UrlProofs.Origin, IEquals;
    if location == "" {
      return Err(MissingRedirectLocation);
    }
    var explicitScheme := FindScheme(location);
    if explicitScheme >= 0 {
      if !IEquals(location[..explicitScheme], "http") {
        return Err(UnsupportedRedirectScheme);
      }
      r := ValidateRedirectUrl(location);
      return;
    }
    if StartsWith(location, "//") {
      r := ValidateRedirectUrl("http:" + location);
      return;
    }
    var origin := BuildOrigin(base, parts);
    if location[0] == '#' {
      r := ValidateRedirectUrl(origin + base.Target() + location);
      return;
    }
    if location[0] == '?' {
      r := ValidateRedirectUrl(origin + base.Path() + location);
      return;
    }
    var suffixBegin := Until(location, 0, "?#");
    var relativePath, suffix := location[..suffixBegin], location[suffixBegin..];
    var mergedPath: string;
    if relativePath != "" && relativePath[0] == '/' {
      assert relativePath[..1] == "/";
      mergedPath := relativePath;
    } else {
      assert relativePath != "" ==> relativePath[..1][0] != "/"[0];
      var basePath := base.Path();
      var slash := LastOf(basePath, '/');
      mergedPath := if slash < 0 then "/" else basePath[..slash + 1];
      mergedPath := mergedPath + relativePath;
    }
    var cleaned := RemoveDotSegments(mergedPath);
    r := ValidateRedirectUrl(origin + cleaned + suffix);
  }
}
