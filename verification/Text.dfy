/**
 Text as the library sees it: a `string` whose characters stand for bytes. Every claim holds for
 any characters; the one place that needs them below 256 (percent encoding) says so.
 */
module Text {
  import opened Results

  const CRLF := "\r\n"
  const BLANK_LINE := "\r\n\r\n"

  /** std::string::npos, as a value no index can take. */
  const NPOS := -1

  /** std::size_t on a 64-bit platform. */
  const SIZE_MAX: nat := 0xFFFF_FFFF_FFFF_FFFF

  type usize = n: nat | n <= 0xFFFF_FFFF_FFFF_FFFF

  // ---------- Character classes ----------

  predicate IsDigit(c: char) { '0' <= c <= '9' }

  predicate IsAlpha(c: char) { 'A' <= c <= 'Z' || 'a' <= c <= 'z' }

  /** A token character: section 5.6.2 of RFC 9110. */
  predicate IsTchar(c: char) {
    || IsDigit(c) || IsAlpha(c)
    || c == '!' || c == '#' || c == '$' || c == '%' || c == '&' || c == '\''
    || c == '*' || c == '+' || c == '-' || c == '.' || c == '^' || c == '_'
    || c == '`' || c == '|' || c == '~'
  }

  predicate IsOws(c: char) { c == ' ' || c == '\t' }

  /** Printable text as the library accepts it in values and reason phrases: tab, or neither control nor DEL. */
  predicate IsFieldChar(c: char) { c == '\t' || (c >= ' ' && c as int != 0x7f) }

  predicate AllOws(s: string) { forall i :: 0 <= i < |s| ==> IsOws(s[i]) }

  predicate AllTchar(s: string) { forall i :: 0 <= i < |s| ==> IsTchar(s[i]) }

  predicate IsToken(s: string) { s != "" && AllTchar(s) }

  predicate IsFieldText(s: string) { forall i :: 0 <= i < |s| ==> IsFieldChar(s[i]) }

  function Lower(c: char): char {
    if 'A' <= c <= 'Z' then (c as int + 32) as char else c
  }

  predicate IEquals(a: string, b: string) {
    |a| == |b| && forall i :: 0 <= i < |a| ==> Lower(a[i]) == Lower(b[i])
  }

  lemma IEqualsReflexive(a: string)
    ensures IEquals(a, a)
  {
  }

  lemma IEqualsSymmetric(a: string, b: string)
    ensures IEquals(a, b) == IEquals(b, a)
  {
  }

  lemma IEqualsTransitive(a: string, b: string, c: string)
    requires IEquals(a, b) && IEquals(b, c)
    ensures IEquals(a, c)
  {
    forall i | 0 <= i < |a| ensures Lower(a[i]) == Lower(c[i]) {
      assert Lower(a[i]) == Lower(b[i]);
    }
  }

  // ---------- Cutting and gluing: sequence facts the solver finds best alone ----------

  lemma CutOnce(s: string, i: nat)
    requires i <= |s|
    ensures s == s[..i] + s[i..]
  {
  }

  lemma CutWhole(s: string)
    ensures s[..|s|] == s && s[|s|..] == "" && "" + s == s && s + "" == s
  {
  }

  lemma CutTwice(s: string, i: nat, j: nat)
    requires i <= j <= |s|
    ensures s == s[..i] + s[i..j] + s[j..]
  {
  }

  lemma CutSum(s: string, i: nat, j: nat)
    requires i + j <= |s|
    ensures s[i..][j..] == s[i + j..]
  {
  }

  lemma Regroup(a: string, b: string, c: string)
    ensures (a + b) + c == a + (b + c)
  {
  }

  /** Dropping at or before the seam, and taking up to it. */
  lemma CutGlued(a: string, b: string, i: nat)
    requires i <= |a|
    ensures (a + b)[i..] == a[i..] + b && (a + b)[..i] == a[..i]
  {
  }

  lemma CutAtSeam(a: string, b: string)
    ensures (a + b)[..|a|] == a && (a + b)[|a|..] == b
  {
  }

  lemma CutAround(a: string, separator: string, b: string)
    requires |separator| == 1
    ensures var s := a + (separator + b); s[..|a|] == a && s[|a| + 1..] == b
  {
  }

  // ---------- Searching ----------

  predicate At(s: string, pat: string, i: int) {
    0 <= i && i + |pat| <= |s| && forall k :: 0 <= k < |pat| ==> s[i + k] == pat[k]
  }

  lemma AtStart(s: string, pat: string, i: nat)
    requires pat != ""
    ensures At(s, pat, i) ==> i < |s| && s[i] == pat[0]
  {
  }

  lemma AtIsSlice(s: string, pat: string, i: nat)
    requires i + |pat| <= |s|
    ensures At(s, pat, i) <==> s[i..i + |pat|] == pat
  {
    var t := s[i..i + |pat|];
    assert forall k :: 0 <= k < |pat| ==> s[i + k] == t[k];
  }

  function FindFrom(s: string, pat: string, from: nat): (i: int)
    ensures i == NPOS || from <= i <= i + |pat| <= |s|
    decreases |s| - from
  {
    if At(s, pat, from) then from
    else if from >= |s| then NPOS
    else FindFrom(s, pat, from + 1)
  }

  /** std::string::find: the first occurrence, or NPOS. */
  function Find(s: string, pat: string): (i: int)
    ensures i == NPOS || 0 <= i <= i + |pat| <= |s|
  {
    FindFrom(s, pat, 0)
  }

  lemma {:induction false} FindFromRun(s: string, pat: string, from: nat)
    ensures var i := FindFrom(s, pat, from);
            if i >= 0 then At(s, pat, i) && forall j :: from <= j < i ==> !At(s, pat, j)
            else forall j :: from <= j ==> !At(s, pat, j)
    decreases |s| - from
  {
    if !At(s, pat, from) && from < |s| {
      FindFromRun(s, pat, from + 1);
    }
  }

  lemma {:induction false} FindFromIs(s: string, pat: string, from: nat, i: nat)
    requires from <= i && At(s, pat, i) && forall j :: from <= j < i ==> !At(s, pat, j)
    ensures FindFrom(s, pat, from) == i
    decreases i - from
  {
    if from < i {
      FindFromIs(s, pat, from + 1, i);
    }
  }

  /** What Find promises: the occurrence it names is one, and there is none before it. */
  lemma FindRun(s: string, pat: string)
    ensures var i := Find(s, pat);
            if i >= 0 then At(s, pat, i) && forall j :: 0 <= j < i ==> !At(s, pat, j)
            else forall j :: 0 <= j ==> !At(s, pat, j)
  {
    FindFromRun(s, pat, 0);
  }

  lemma FindIs(s: string, pat: string, i: nat)
    requires At(s, pat, i) && forall j :: 0 <= j < i ==> !At(s, pat, j)
    ensures Find(s, pat) == i
  {
    FindFromIs(s, pat, 0, i);
  }

  /** An occurrence in a prefix stays the first one, and new ones can only straddle the seam. */
  lemma FindExtend(a: string, b: string, pat: string)
    requires pat != ""
    ensures Find(a, pat) >= 0 ==> Find(a + b, pat) == Find(a, pat)
    ensures Find(a, pat) < 0 && Find(a + b, pat) >= 0 ==> Find(a + b, pat) + |pat| > |a|
  {
    var s := a + b;
    assert forall j :: 0 <= j < |a| ==> s[j] == a[j];
    forall j: nat | j + |pat| <= |a| ensures At(a, pat, j) == At(s, pat, j) {
    }
    FindRun(a, pat);
    FindRun(s, pat);
    if Find(a, pat) >= 0 {
      FindIs(s, pat, Find(a, pat));
    }
  }

  lemma {:induction false} FindFromShift(s: string, t: string, pat: string, from: nat, k: nat)
    requires from + k <= |s| && t == s[from..]
    ensures FindFrom(s, pat, from + k) == var i := FindFrom(t, pat, k); if i < 0 then NPOS else from + i
    decreases |t| - k
  {
    assert forall j :: 0 <= j < |t| ==> t[j] == s[from + j];
    assert At(s, pat, from + k) == At(t, pat, k);
    if !At(t, pat, k) && k < |t| {
      FindFromShift(s, t, pat, from, k + 1);
    }
  }

  /** Searching from a cursor is searching the rest. */
  lemma {:induction false} FindFromIsFind(s: string, pat: string, from: nat)
    requires from <= |s|
    ensures FindFrom(s, pat, from) == var i := Find(s[from..], pat); if i < 0 then NPOS else from + i
  {
    FindFromShift(s, s[from..], pat, from, 0);
  }

  /** A line without its own CRLF is found whole when CRLF follows it. */
  lemma FindLine(line: string, rest: string)
    requires Find(line, CRLF) < 0
    ensures Find(line + (CRLF + rest), CRLF) == |line|
  {
    var s := line + (CRLF + rest);
    FindRun(line, CRLF);
    assert s[|line|] == '\r' && s[|line| + 1] == '\n';
    assert forall j :: 0 <= j < |line| ==> s[j] == line[j];
    forall j | 0 <= j < |line| ensures !At(s, CRLF, j) {
      assert !At(line, CRLF, j);
      assert s[j + 1] != CRLF[1] || s[j] != CRLF[0];
    }
    FindIs(s, CRLF, |line|);
  }

  /** The text before the first CRLF holds none. */
  lemma LineLacksCrlf(s: string)
    requires Find(s, CRLF) >= 0
    ensures Find(s[..Find(s, CRLF)], CRLF) < 0
    ensures s == s[..Find(s, CRLF)] + (CRLF + s[Find(s, CRLF) + 2..])
  {
    var i := Find(s, CRLF);
    var line := s[..i];
    FindRun(s, CRLF);
    FindRun(line, CRLF);
    assert forall j: nat :: At(line, CRLF, j) ==> At(s, CRLF, j) && j < i;
    assert s[i] == CRLF[0] && s[i + 1] == CRLF[1];
  }

  // ---------- Lines ----------

  /** Each line with its CRLF, then `tail`. */
  function LinesThen(lines: seq<string>, tail: string): string {
    if lines == [] then tail else lines[0] + (CRLF + LinesThen(lines[1..], tail))
  }

  function LinesSize(lines: seq<string>): nat {
    if lines == [] then 0 else |lines[0]| + 2 + LinesSize(lines[1..])
  }

  lemma {:induction false} LinesThenGlue(lines: seq<string>, t: string, a: string)
    ensures LinesThen(lines, t + a) == LinesThen(lines, t) + a
  {
    if lines != [] {
      LinesThenGlue(lines[1..], t, a);
      var rest := LinesThen(lines[1..], t);
      Regroup(CRLF, rest, a);
      Regroup(lines[0], CRLF + rest, a);
    }
  }

  lemma CutLine(line: string, tail: string)
    ensures var s := line + (CRLF + tail); s[..|line|] == line && s[|line| + 2..] == tail
  {
  }

  lemma FindNothing()
    ensures Find("", CRLF) < 0
  {
    FindRun("", CRLF);
  }

  predicate Lacks(s: string, c: char) { forall i :: 0 <= i < |s| ==> s[i] != c }

  lemma LacksGlue(a: string, b: string, c: char)
    ensures Lacks(a + b, c) <==> Lacks(a, c) && Lacks(b, c)
  {
    var s := a + b;
    assert forall i :: 0 <= i < |a| ==> a[i] == s[i];
    assert forall i :: 0 <= i < |b| ==> b[i] == s[|a| + i];
  }

  lemma NoCrNoCrlf(s: string)
    requires Lacks(s, '\r')
    ensures Find(s, CRLF) < 0
  {
    FindRun(s, CRLF);
    forall j: nat ensures !At(s, CRLF, j) {
      AtStart(s, CRLF, j);
    }
  }

  /** The first position at or after `from` holding any character of `stops`, or |s|. */
  function Until(s: string, from: nat, stops: string): (i: nat)
    requires from <= |s|
    ensures from <= i <= |s|
    ensures i < |s| ==> s[i] in stops
    decreases |s| - from
  {
    if from == |s| || s[from] in stops then from else Until(s, from + 1, stops)
  }

  /** The first position of `c`, or NPOS. */
  function FindChar(s: string, c: char): (i: int)
    ensures -1 <= i < |s|
    ensures i >= 0 ==> s[i] == c
  {
    var i := Until(s, 0, [c]);
    if i < |s| then i else NPOS
  }

  lemma {:induction false} UntilRun(s: string, from: nat, stops: string)
    requires from <= |s|
    ensures forall j :: from <= j < Until(s, from, stops) ==> s[j] !in stops
    decreases |s| - from
  {
    if from < |s| && s[from] !in stops {
      UntilRun(s, from + 1, stops);
    }
  }

  lemma {:induction false} UntilIs(s: string, from: nat, stops: string, i: nat)
    requires from <= i <= |s| && (forall j :: from <= j < i ==> s[j] !in stops)
    requires i < |s| ==> s[i] in stops
    ensures Until(s, from, stops) == i
    decreases i - from
  {
    if from < i {
      UntilIs(s, from + 1, stops, i);
    }
  }

  lemma FindCharRun(s: string, c: char)
    ensures var i := FindChar(s, c); Lacks(if i < 0 then s else s[..i], c)
  {
    UntilRun(s, 0, [c]);
  }

  lemma UntilAt(a: string, b: string, stops: string)
    requires forall j :: 0 <= j < |a| ==> a[j] !in stops
    requires b == "" || b[0] in stops
    ensures Until(a + b, 0, stops) == |a|
  {
    var s := a + b;
    assert b != "" ==> s[|a|] == b[0];
    assert forall j :: 0 <= j < |a| ==> s[j] == a[j];
    UntilIs(s, 0, stops, |a|);
  }

  lemma FindCharAt(a: string, c: char, b: string)
    requires Lacks(a, c)
    ensures FindChar(a + ([c] + b), c) == |a|
  {
    UntilAt(a, [c] + b, [c]);
  }

  lemma FindCharNone(s: string, c: char)
    requires Lacks(s, c)
    ensures FindChar(s, c) == NPOS
  {
    UntilIs(s, 0, [c], |s|);
  }

  // ---------- Splitting and joining ----------

  /** The parts of `s[from..]` between occurrences of `c`. */
  function SplitFrom(s: string, from: nat, c: char): (parts: seq<string>)
    requires from <= |s|
    ensures parts != []
    decreases |s| - from
  {
    var end := Until(s, from, [c]);
    if end == |s| then [s[from..]] else [s[from..end]] + SplitFrom(s, end + 1, c)
  }

  function Split(s: string, c: char): (parts: seq<string>)
    ensures parts != []
  {
    SplitFrom(s, 0, c)
  }

  function Join(parts: seq<string>, c: char): string {
    if parts == [] then ""
    else if |parts| == 1 then parts[0]
    else parts[0] + ([c] + Join(parts[1..], c))
  }

  predicate AllLack(parts: seq<string>, c: char) {
    forall i :: 0 <= i < |parts| ==> Lacks(parts[i], c)
  }

  lemma {:induction false} SplitLacks(s: string, from: nat, c: char)
    requires from <= |s|
    ensures AllLack(SplitFrom(s, from, c), c)
    decreases |s| - from
  {
    var end := Until(s, from, [c]);
    UntilRun(s, from, [c]);
    if end < |s| {
      SplitLacks(s, end + 1, c);
    }
  }

  lemma SplitUnfold(s: string, from: nat, c: char)
    requires from <= |s|
    ensures var end := Until(s, from, [c]);
            SplitFrom(s, from, c) == if end == |s| then [s[from..]] else [s[from..end]] + SplitFrom(s, end + 1, c)
  {
    hide Until;
  }

  lemma JoinHead(parts: seq<string>, c: char)
    requires parts != []
    ensures Join(parts, c) == parts[0] + if |parts| > 1 then [c] + Join(parts[1..], c) else ""
    ensures |parts| > 1 ==> parts == [parts[0]] + parts[1..]
    ensures |parts| == 1 ==> parts == [parts[0]]
  {
    assert parts[0] + "" == parts[0];
  }

  lemma SplitHead(s: string, from: nat, head: string, rest: string, c: char)
    requires from <= |s| && s[from..] == head + rest && Lacks(head, c) && (rest == "" || rest[0] == c)
    ensures var end := from + |head|;
            && Until(s, from, [c]) == end && s[from..end] == head && s[end..] == rest
            && (rest != "" ==> s[end + 1..] == rest[1..])
  {
    var t := head + rest;
    assert forall j :: 0 <= j < |t| ==> t[j] == s[from + j];
    assert forall j :: from <= j < from + |head| ==> s[j] == head[j - from];
    UntilIs(s, from, [c], from + |head|);
  }

  lemma {:induction false} SplitFromJoin(s: string, from: nat, parts: seq<string>, c: char)
    requires from <= |s| && parts != [] && AllLack(parts, c) && s[from..] == Join(parts, c)
    ensures SplitFrom(s, from, c) == parts
    decreases |parts|
  {
    hide Until, Join, Lacks, SplitFrom;
    SplitUnfold(s, from, c);
    var rest := if |parts| > 1 then [c] + Join(parts[1..], c) else "";
    JoinHead(parts, c);
    SplitHead(s, from, parts[0], rest, c);
    if |parts| > 1 {
      CutAtSeam([c], Join(parts[1..], c));
      SplitFromJoin(s, from + |parts[0]| + 1, parts[1..], c);
    } else {
      assert parts[0] + "" == parts[0];
    }
  }

  lemma SplitJoin(parts: seq<string>, c: char)
    requires parts != [] && AllLack(parts, c)
    ensures Split(Join(parts, c), c) == parts
  {
    SplitFromJoin(Join(parts, c), 0, parts, c);
  }

  lemma JoinCons(head: string, tail: seq<string>, c: char)
    requires tail != []
    ensures Join([head] + tail, c) == head + ([c] + Join(tail, c))
  {
    assert ([head] + tail)[1..] == tail;
  }

  lemma Cut(s: string, from: nat, at: nat)
    requires from <= at < |s|
    ensures s[from..] == s[from..at] + ([s[at]] + s[at + 1..])
  {
  }

  lemma {:induction false} JoinSplit(s: string, from: nat, c: char)
    requires from <= |s|
    ensures Join(SplitFrom(s, from, c), c) == s[from..]
    decreases |s| - from
  {
    var end := Until(s, from, [c]);
    if end == |s| {
      assert SplitFrom(s, from, c) == [s[from..]];
    } else {
      var tail := SplitFrom(s, end + 1, c);
      JoinSplit(s, end + 1, c);
      JoinCons(s[from..end], tail, c);
      Cut(s, from, end);
    }
  }

  lemma {:induction false} JoinAppend(a: seq<string>, b: seq<string>, c: char)
    requires a != [] && b != []
    ensures Join(a + b, c) == Join(a, c) + ([c] + Join(b, c))
  {
    if |a| > 1 {
      assert (a + b)[1..] == a[1..] + b;
      JoinAppend(a[1..], b, c);
      var ta, tb := Join(a[1..], c), [c] + Join(b, c);
      assert a[0] + ([c] + (ta + tb)) == (a[0] + ([c] + ta)) + tb;
    } else {
      assert (a + b)[1..] == b;
    }
  }

  lemma JoinFew(parts: seq<string>, c: char)
    ensures parts == [] ==> Join(parts, c) == ""
    ensures |parts| == 1 ==> Join(parts, c) == parts[0]
  {
  }

  /** One turn of a loop that writes parts with `c` between them. */
  lemma JoinedSoFar(begin: string, before: string, parts: seq<string>, one: string, after: string, c: char)
    requires before == begin + Join(parts, c)
    requires after == (if parts == [] then before else before + [c]) + one
    ensures after == begin + Join(parts + [one], c)
  {
    JoinFew([one], c);
    if parts == [] {
      assert parts + [one] == [one] && begin + "" == begin;
    } else {
      JoinAppend(parts, [one], c);
      Regroup(begin, Join(parts, c), [c] + one);
      Regroup(before, [c], one);
    }
  }

  // ---------- Optional whitespace ----------

  /** Where the run of optional whitespace starting at `i` ends. */
  function OwsEnd(s: string, i: nat): (r: nat)
    requires i <= |s|
    ensures i <= r <= |s|
    decreases |s| - i
  {
    if i < |s| && IsOws(s[i]) then OwsEnd(s, i + 1) else i
  }

  lemma {:induction false} OwsEndRun(s: string, i: nat)
    requires i <= |s|
    ensures var r := OwsEnd(s, i);
            (forall j :: i <= j < r ==> IsOws(s[j])) && (r < |s| ==> !IsOws(s[r]))
    decreases |s| - i
  {
    if i < |s| && IsOws(s[i]) {
      OwsEndRun(s, i + 1);
    }
  }

  lemma {:induction false} OwsEndIs(s: string, i: nat, r: nat)
    requires i <= r <= |s|
    requires (forall j :: i <= j < r ==> IsOws(s[j])) && (r < |s| ==> !IsOws(s[r]))
    ensures OwsEnd(s, i) == r
    decreases r - i
  {
    if i < r {
      OwsEndIs(s, i + 1, r);
    }
  }

  /** Where the run of optional whitespace ending at `hi` starts, not going below `lo`. */
  function OwsStart(s: string, lo: nat, hi: nat): (r: nat)
    requires lo <= hi <= |s|
    ensures lo <= r <= hi
    ensures lo < r ==> !IsOws(s[r - 1])
  {
    if lo < hi && IsOws(s[hi - 1]) then OwsStart(s, lo, hi - 1) else hi
  }

  lemma {:induction false} OwsStartIs(s: string, lo: nat, r: nat, hi: nat)
    requires lo <= r <= hi <= |s|
    requires (forall j :: r <= j < hi ==> IsOws(s[j])) && (lo < r ==> !IsOws(s[r - 1]))
    ensures OwsStart(s, lo, hi) == r
    decreases hi - r
  {
    if r < hi {
      OwsStartIs(s, lo, r, hi - 1);
    }
  }

  lemma {:induction false} OwsStartRun(s: string, lo: nat, hi: nat)
    requires lo <= hi <= |s|
    ensures forall j :: OwsStart(s, lo, hi) <= j < hi ==> IsOws(s[j])
    decreases hi - lo
  {
    if lo < hi && IsOws(s[hi - 1]) {
      OwsStartRun(s, lo, hi - 1);
    }
  }

  /** `s` without the optional whitespace around it. */
  function Trimmed(s: string): string {
    var lo := OwsEnd(s, 0);
    s[lo..OwsStart(s, lo, |s|)]
  }

  predicate IsTrimmed(s: string) {
    s == "" || (!IsOws(s[0]) && !IsOws(s[|s| - 1]))
  }

  lemma TrimmedIsTrimmed(s: string)
    ensures IsTrimmed(Trimmed(s))
    ensures IsFieldText(s) ==> IsFieldText(Trimmed(s))
  {
    OwsEndRun(s, 0);
  }

  lemma TrimmedUnique(w: string, r: string, v: string)
    requires AllOws(w) && AllOws(v) && IsTrimmed(r)
    ensures Trimmed(w + r + v) == r
  {
    var s := w + r + v;
    assert forall j :: 0 <= j < |w| ==> s[j] == w[j];
    assert forall j :: 0 <= j < |r| ==> s[|w| + j] == r[j];
    assert forall j :: 0 <= j < |v| ==> s[|w| + |r| + j] == v[j];
    if r == "" {
      OwsEndIs(s, 0, |s|);
    } else {
      assert !IsOws(s[|w|]) && !IsOws(s[|w| + |r| - 1]);
      OwsEndIs(s, 0, |w|);
      OwsStartIs(s, |w|, |w| + |r|, |s|);
    }
  }

  method TrimOws(value: string) returns (r: string)
    ensures r == Trimmed(value)
  {
    var lo, hi := 0, |value|;
    while lo < hi && IsOws(value[lo])
      invariant lo <= hi && OwsEnd(value, 0) == OwsEnd(value, lo)
    {
      lo := lo + 1;
    }
    while lo < hi && IsOws(value[hi - 1])
      invariant lo <= hi <= |value| && OwsStart(value, lo, |value|) == OwsStart(value, lo, hi)
    {
      hi := hi - 1;
    }
    r := value[lo..hi];
  }

  // ---------- Comma lists ----------

  /** The trimmed items of the comma list `value[begin..]`. */
  function TokensFrom(value: string, begin: nat): seq<string>
    decreases |value| + 1 - begin
  {
    if begin > |value| then []
    else var end := Until(value, begin, ","); [Trimmed(value[begin..end])] + TokensFrom(value, end + 1)
  }

  function Tokens(value: string): seq<string> {
    TokensFrom(value, 0)
  }

  /** Whether some item equals `expected`, ignoring case. */
  predicate AnyIs(items: seq<string>, expected: string) {
    exists i :: 0 <= i < |items| && IEquals(items[i], expected)
  }

  lemma TokensUnfold(value: string, begin: nat)
    requires begin <= |value|
    ensures var end := Until(value, begin, ",");
            TokensFrom(value, begin) == [Trimmed(value[begin..end])] + TokensFrom(value, end + 1)
  {
    hide Until, Trimmed;
  }

  predicate HasToken(value: string, expected: string) {
    AnyIs(Tokens(value), expected)
  }

  lemma AnyCons(head: string, tail: seq<string>, expected: string)
    ensures AnyIs([head] + tail, expected) == (IEquals(head, expected) || AnyIs(tail, expected))
  {
    hide IEquals;
    var all := [head] + tail;
    if i :| 0 <= i < |tail| && IEquals(tail[i], expected) {
      assert all[i + 1] == tail[i];
    }
    assert all[0] == head;
    assert forall i :: 0 < i < |all| ==> all[i] == tail[i - 1];
  }

  lemma TokensStep(value: string, begin: nat, expected: string)
    requires begin <= |value|
    ensures var end := Until(value, begin, ",");
            AnyIs(TokensFrom(value, begin), expected)
            == (IEquals(Trimmed(value[begin..end]), expected) || AnyIs(TokensFrom(value, end + 1), expected))
  {
    hide AnyIs, IEquals, Until, Trimmed;
    var end := Until(value, begin, ",");
    AnyCons(Trimmed(value[begin..end]), TokensFrom(value, end + 1), expected);
  }

  method ContainsToken(value: string, expected: string) returns (found: bool)
    ensures found == HasToken(value, expected)
  {
    var begin := 0;
    while begin <= |value|
      invariant begin <= |value| + 1
      invariant HasToken(value, expected) == AnyIs(TokensFrom(value, begin), expected)
    {
      var end := Until(value, begin, ",");
      TokensStep(value, begin, expected);
      var token := TrimOws(value[begin..end]);
      if IEquals(token, expected) {
        return true;
      }
      begin := end + 1;
    }
    return false;
  }

  // ---------- Numbers ----------

  function DigitOf(c: char): int {
    if IsDigit(c) then c as int - '0' as int
    else if 'a' <= c <= 'f' then c as int - 'a' as int + 10
    else if 'A' <= c <= 'F' then c as int - 'A' as int + 10
    else -1
  }

  predicate IsNumeral(s: string, base: nat) {
    forall i :: 0 <= i < |s| ==> 0 <= DigitOf(s[i]) < base
  }

  lemma TimesGrows(v: nat, base: nat, digit: nat)
    ensures v * base + digit >= 0
    ensures base >= 1 ==> v * base + digit >= v
  {
  }

  /** The number the first `n` digits denote. */
  function NatUpTo(s: string, n: nat, base: nat): nat
    requires n <= |s| && forall i :: 0 <= i < n ==> 0 <= DigitOf(s[i]) < base
  {
    if n == 0 then 0
    else
      var high := NatUpTo(s, n - 1, base);
      TimesGrows(high, base, DigitOf(s[n - 1]));
      high * base + DigitOf(s[n - 1])
  }

  function NatOf(s: string, base: nat): nat
    requires IsNumeral(s, base)
  {
    NatUpTo(s, |s|, base)
  }

  /** std::from_chars over a whole text: digits only, and no more than SIZE_MAX. */
  function Number(s: string, base: nat): Option<nat> {
    if s != "" && IsNumeral(s, base) && NatOf(s, base) <= SIZE_MAX then Some(NatOf(s, base)) else None
  }

  lemma NatStep(s: string, n: nat, base: nat)
    requires 0 < n <= |s| && IsNumeral(s, base)
    ensures NatUpTo(s, n, base) == NatUpTo(s, n - 1, base) * base + DigitOf(s[n - 1])
  {
    hide DigitOf;
  }

  lemma {:induction false} NatMonotone(s: string, n: nat, m: nat, base: nat)
    requires base >= 1 && n <= m <= |s| && IsNumeral(s, base)
    ensures NatUpTo(s, n, base) <= NatUpTo(s, m, base)
  {
    hide DigitOf, NatUpTo;
    if n < m {
      NatMonotone(s, n, m - 1, base);
      NatStep(s, m, base);
      TimesGrows(NatUpTo(s, m - 1, base), base, DigitOf(s[m - 1]));
    }
  }

  method FromChars(text: string, base: nat) returns (r: Option<nat>)
    requires base == 10 || base == 16
    ensures r == Number(text, base)
  {
    hide DigitOf;
    if text == "" {
      return None;
    }
    var value: nat := 0;
    var i := 0;
    while i < |text|
      invariant i <= |text| && forall j :: 0 <= j < i ==> 0 <= DigitOf(text[j]) < base
      invariant value == NatUpTo(text, i, base) <= SIZE_MAX
    {
      var digit := DigitOf(text[i]);
      if !(0 <= digit < base) {
        return None;
      }
      value := value * base + digit;
      i := i + 1;
      if value > SIZE_MAX {
        if IsNumeral(text, base) {
          NatMonotone(text, i, |text|, base);
        }
        return None;
      }
    }
    return Some(value);
  }

  const DIGITS := "0123456789abcdef"

  /** The shortest numeral of `n`. */
  function Numeral(n: nat, base: nat): (s: string)
    requires base == 10 || base == 16
    ensures s != ""
  {
    if n < base then [DIGITS[n]] else Numeral(n / base, base) + [DIGITS[n % base]]
  }

  lemma DigitsDenote(d: nat)
    requires d < 16
    ensures DigitOf(DIGITS[d]) == d && IsTchar(DIGITS[d]) && (d < 10 ==> IsDigit(DIGITS[d]))
  {
  }

  lemma {:induction false} NatUpToSame(s: string, t: string, n: nat, base: nat)
    requires n <= |s| && n <= |t| && s[..n] == t[..n]
    requires forall i :: 0 <= i < n ==> 0 <= DigitOf(s[i]) < base && s[i] == t[i]
    ensures NatUpTo(s, n, base) == NatUpTo(t, n, base)
  {
    if n > 0 {
      NatUpToSame(s, t, n - 1, base);
    }
  }

  lemma NatOfAppend(high: string, last: char, base: nat)
    requires IsNumeral(high, base) && 0 <= DigitOf(last) < base
    ensures IsNumeral(high + [last], base)
    ensures NatOf(high + [last], base) == NatOf(high, base) * base + DigitOf(last)
  {
    var s := high + [last];
    assert forall i :: 0 <= i < |high| ==> s[i] == high[i];
    NatUpToSame(high, s, |high|, base);
  }

  lemma Recombined(n: nat, base: nat)
    requires base == 10 || base == 16
    ensures n / base * base + n % base == n
  {
  }

  lemma NumeralStep(n: nat, base: nat)
    requires base == 10 || base == 16
    ensures Numeral(n, base) == (if n < base then "" else Numeral(n / base, base)) + [DIGITS[n % base]]
    ensures n < base ==> n % base == n
  {
    if base == 10 {
      assert n < 10 ==> n % 10 == n;
    } else {
      assert n < 16 ==> n % 16 == n;
    }
    assert n < base ==> "" + [DIGITS[n]] == [DIGITS[n]];
  }

  lemma NatOfEmpty(base: nat)
    ensures IsNumeral("", base) && NatOf("", base) == 0
  {
  }

  lemma {:induction false} NumeralDenotes(n: nat, base: nat)
    requires base == 10 || base == 16
    ensures IsNumeral(Numeral(n, base), base) && NatOf(Numeral(n, base), base) == n
    ensures AllTchar(Numeral(n, base))
    ensures base == 10 ==> forall i :: 0 <= i < |Numeral(n, base)| ==> IsDigit(Numeral(n, base)[i])
  {
    hide NatOf, DigitOf, IsTchar, Numeral;
    var last := DIGITS[n % base];
    DigitsDenote(n % base);
    NumeralStep(n, base);
    if n < base {
      NatOfEmpty(base);
      NatOfAppend("", last, base);
    } else {
      NumeralDenotes(n / base, base);
      NatOfAppend(Numeral(n / base, base), last, base);
      Recombined(n, base);
    }
  }

  lemma NumeralRoundTrip(n: usize, base: nat)
    requires base == 10 || base == 16
    ensures Number(Numeral(n, base), base) == Some(n)
  {
    NumeralDenotes(n, base);
  }

  /** std::to_chars in base 10. */
  method ToChars(n: nat) returns (text: string)
    ensures text == Numeral(n, 10)
  {
    var value: nat := n;
    text := "";
    while value >= 10
      invariant Numeral(value, 10) + text == Numeral(n, 10)
    {
      text := [DIGITS[value % 10]] + text;
      value := value / 10;
    }
    text := [DIGITS[value]] + text;
  }
}
