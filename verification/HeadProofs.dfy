/** The grammar of message heads (section 2.1, 4 and 5 of RFC 9112), and that the head parser accepts
 exactly it and stops at exactly the empty line. */
module HeadProofs {
  import opened Results
  import opened Text
  import opened Heads

  // ---------- The grammar ----------

  ghost predicate FieldLineParts(line: string, f: Field, w: string, v: string) {
    && line == f.name + (":" + (w + f.value + v)) && AllOws(w) && AllOws(v)
    && IsToken(f.name) && IsTrimmed(f.value) && IsFieldText(f.value)
  }

  /** name ":" OWS value OWS. */
  ghost predicate IsFieldLine(line: string, f: Field) {
    exists w: string, v: string :: FieldLineParts(line, f, w, v)
  }

  ghost predicate StatusLineParts(line: string, status: nat, reason: string, code: string) {
    && |code| == 3 && IsNumeral(code, 10) && NatOf(code, 10) == status >= 100 && IsFieldText(reason)
    && ((line == VERSION + code && reason == "") || line == VERSION + (code + (" " + reason)))
  }

  /** "HTTP/1.1" SP three digits, and possibly SP reason. */
  ghost predicate IsStatusLine(line: string, status: nat, reason: string) {
    exists code: string :: StatusLineParts(line, status, reason, code)
  }

  ghost predicate AreFieldLines(lines: seq<string>, headers: Headers) {
    |lines| == |headers| && forall i :: 0 <= i < |lines| ==> IsFieldLine(lines[i], headers[i])
  }

  /** The lines of a head, without the empty line that ends it. */
  ghost predicate IsHead(lines: seq<string>, h: ParsedHead) {
    lines != [] && IsStatusLine(lines[0], h.status, h.reason) && AreFieldLines(lines[1..], h.headers)
  }

  // ---------- One line ----------

  lemma TrimmedParts(s: string) returns (w: string, v: string)
    ensures AllOws(w) && AllOws(v) && s == w + Trimmed(s) + v
  {
    OwsEndRun(s, 0);
    var lo := OwsEnd(s, 0);
    OwsStartRun(s, lo, |s|);
    var hi := OwsStart(s, lo, |s|);
    w, v := s[..lo], s[hi..];
    CutTwice(s, lo, hi);
  }

  lemma FieldLineSound(line: string)
    requires ParseField(line).Ok?
    ensures IsFieldLine(line, ParseField(line).value)
  {
    hide IsTchar, OwsEnd, OwsStart;
    var f := ParseField(line).value;
    var colon := FindChar(line, ':');
    var rest := line[colon + 1..];
    var w, v := TrimmedParts(rest);
    TrimmedIsTrimmed(rest);
    assert line == line[..colon] + (":" + rest);
    assert FieldLineParts(line, f, w, v);
  }

  lemma NameEndsAtColon(name: string, rest: string)
    requires IsToken(name)
    ensures FindChar(name + (":" + rest), ':') == |name| && !IsOws((name + (":" + rest))[0])
  {
    FindCharAt(name, ':', rest);
  }

  lemma FieldLineLacksCr(line: string, f: Field, w: string, v: string)
    requires FieldLineParts(line, f, w, v)
    ensures Find(line, CRLF) < 0
  {
    hide Find;
    var rest := w + f.value + v;
    assert forall i :: 0 <= i < |rest| ==>
      rest[i] == if i < |w| then w[i] else if i < |w| + |f.value| then f.value[i - |w|] else v[i - |w| - |f.value|];
    assert Lacks(rest, '\r');
    assert forall i :: 0 <= i < |line| ==>
      line[i] == if i < |f.name| then f.name[i] else if i == |f.name| then ':' else rest[i - |f.name| - 1];
    NoCrNoCrlf(line);
  }

  lemma FieldLineComplete(line: string, f: Field)
    requires IsFieldLine(line, f)
    ensures ParseField(line) == Ok(f) && line != "" && Find(line, CRLF) < 0
  {
    hide Trimmed, Find, FindChar;
    var w: string, v: string :| FieldLineParts(line, f, w, v);
    var rest := w + f.value + v;
    NameEndsAtColon(f.name, rest);
    TrimmedUnique(w, f.value, v);
    CutAtSeam(f.name, ":" + rest);
    CutSum(line, |f.name|, 1);
    CutAtSeam(":", rest);
    FieldLineLacksCr(line, f, w, v);
  }

  lemma StatusLineSound(line: string)
    requires ParseStatusLine(line).Ok?
    ensures var r := ParseStatusLine(line).value; IsStatusLine(line, r.0, r.1)
  {
    hide NatOf;
    var r := ParseStatusLine(line).value;
    var code := line[9..12];
    CutTwice(line, 9, 12);
    if |line| == 12 {
      assert line == VERSION + code;
    } else {
      assert line[12..] == " " + line[13..];
      Regroup(VERSION, code, " " + line[13..]);
    }
    assert StatusLineParts(line, r.0, r.1, code);
  }

  lemma StatusLinePieces(line: string, status: nat, reason: string, code: string)
    requires StatusLineParts(line, status, reason, code)
    ensures ParseStatusLine(line) == Ok((status, reason)) && line != "" && Find(line, CRLF) < 0
  {
    hide NatOf, Find;
    ThreeDigits(code);
    assert line[..9] == VERSION && line[9..12] == code;
    if |line| > 12 {
      assert line[12] == ' ' && line[13..] == reason;
    }
    assert forall i :: 0 <= i < |line| ==>
      line[i] == if i < 9 then VERSION[i] else if i < 12 then code[i - 9] else if i == 12 then ' ' else reason[i - 13];
    NoCrNoCrlf(line);
  }

  lemma StatusLineComplete(line: string, status: nat, reason: string)
    requires IsStatusLine(line, status, reason)
    ensures ParseStatusLine(line) == Ok((status, reason)) && line != "" && Find(line, CRLF) < 0
  {
    hide NatOf, Find;
    var code: string :| StatusLineParts(line, status, reason, code);
    StatusLinePieces(line, status, reason, code);
  }

  // ---------- The lines of a head ----------

  /** The lines with CRLF between them. */
  function Joined(lines: seq<string>): string
    requires lines != []
  {
    if |lines| == 1 then lines[0] else lines[0] + (CRLF + Joined(lines[1..]))
  }

  lemma {:induction false} JoinedThen(lines: seq<string>, tail: string)
    requires lines != []
    ensures LinesThen(lines, CRLF + tail) == Joined(lines) + (BLANK_LINE + tail)
    ensures |Joined(lines)| + 2 == LinesSize(lines)
  {
    if |lines| == 1 {
      assert LinesThen(lines[1..], CRLF + tail) == CRLF + tail;
      assert CRLF + (CRLF + tail) == BLANK_LINE + tail;
    } else {
      JoinedThen(lines[1..], tail);
      Regroup(CRLF, Joined(lines[1..]), BLANK_LINE + tail);
      Regroup(lines[0], CRLF + Joined(lines[1..]), BLANK_LINE + tail);
    }
  }

  predicate AreLines(lines: seq<string>) {
    forall i :: 0 <= i < |lines| ==> lines[i] != "" && Find(lines[i], CRLF) < 0
  }

  lemma CrlfOnlyAtEnd(line: string, next: string)
    requires Find(line, CRLF) < 0
    ensures forall j :: 0 <= j < |line| ==> !At(line + (CRLF + next), CRLF, j)
  {
    hide Find;
    FindLine(line, next);
    FindRun(line + (CRLF + next), CRLF);
  }

  lemma BlankIsTwoCrlf(s: string, i: nat)
    ensures At(s, BLANK_LINE, i) <==> At(s, CRLF, i) && At(s, CRLF, i + 2)
  {
    if At(s, BLANK_LINE, i) {
      assert s[i] == BLANK_LINE[0] && s[i + 1] == BLANK_LINE[1] && s[i + 2] == BLANK_LINE[2] &&
             s[i + 3] == BLANK_LINE[3];
    }
    if At(s, CRLF, i) && At(s, CRLF, i + 2) {
      assert s[i] == CRLF[0] && s[i + 1] == CRLF[1] && s[i + 2] == CRLF[0] && s[i + 3] == CRLF[1];
    }
  }

  lemma LastLine(line: string, tail: string)
    requires Find(line, CRLF) < 0
    ensures Find(line + (CRLF + (CRLF + tail)), BLANK_LINE) == |line|
  {
    hide Find;
    var s := line + (CRLF + (CRLF + tail));
    CrlfOnlyAtEnd(line, CRLF + tail);
    assert s[|line|] == CRLF[0] && s[|line| + 1] == CRLF[1] && s[|line| + 2] == CRLF[0] && s[|line| + 3] == CRLF[1];
    BlankIsTwoCrlf(s, |line|);
    forall j | 0 <= j < |line| ensures !At(s, BLANK_LINE, j) {
      BlankIsTwoCrlf(s, j);
    }
    FindIs(s, BLANK_LINE, |line|);
  }

  lemma AtAfter(line: string, next: string, pat: string, j: nat)
    ensures At(line + (CRLF + next), pat, |line| + 2 + j) <==> At(next, pat, j)
  {
    var s := line + (CRLF + next);
    assert forall k :: 0 <= k < |next| ==> next[k] == s[|line| + 2 + k];
    if At(s, pat, |line| + 2 + j) {
      assert forall k :: 0 <= k < |pat| ==> pat[k] == s[|line| + 2 + j + k];
    }
  }

  lemma SkipLine(line: string, next: string, second: string)
    requires Find(line, CRLF) < 0 && Find(next, BLANK_LINE) >= 0
    requires second != "" && Find(second, CRLF) < 0 && exists t :: next == second + (CRLF + t)
    ensures Find(line + (CRLF + next), BLANK_LINE) == |line| + 2 + Find(next, BLANK_LINE)
  {
    hide Find;
    var s, k := line + (CRLF + next), Find(next, BLANK_LINE);
    var t :| next == second + (CRLF + t);
    CrlfOnlyAtEnd(line, next);
    CrlfOnlyAtEnd(second, t);
    FindRun(next, BLANK_LINE);
    AtAfter(line, next, BLANK_LINE, k);
    AtAfter(line, next, CRLF, 0);
    assert s[|line| + 1] == CRLF[1];
    forall j | 0 <= j < |line| + 2 + k ensures !At(s, BLANK_LINE, j) {
      BlankIsTwoCrlf(s, j);
      AtStart(s, CRLF, j);
      if j >= |line| + 2 {
        AtAfter(line, next, BLANK_LINE, j - |line| - 2);
      }
    }
    FindIs(s, BLANK_LINE, |line| + 2 + k);
  }

  /** Lines without CRLF, and none is empty but perhaps the first. */
  predicate AreHeadLines(lines: seq<string>) {
    lines != [] && forall i :: 0 <= i < |lines| ==> Find(lines[i], CRLF) < 0 && (i > 0 ==> lines[i] != "")
  }

  /** The first empty line after the first line comes after all the lines. */
  lemma {:induction false} BlankLineAfter(lines: seq<string>, tail: string)
    requires AreHeadLines(lines)
    ensures Find(LinesThen(lines, CRLF + tail), BLANK_LINE) == LinesSize(lines) - 2
  {
    hide Find;
    var line, next := lines[0], LinesThen(lines[1..], CRLF + tail);
    if |lines| == 1 {
      LastLine(line, tail);
    } else {
      BlankLineAfter(lines[1..], tail);
      SkipLine(line, next, lines[1]);
    }
  }

  // ---------- The whole head ----------

  lemma {:induction false} FieldsComplete(block: string, begin: nat, lines: seq<string>, headers: Headers)
    requires lines != [] && AreFieldLines(lines, headers) && begin <= |block| && block[begin..] == Joined(lines)
    ensures ParseFields(block, begin) == Ok(headers)
    decreases |lines|
  {
    hide ParseField, Find, IsFieldLine, FindFrom;
    FieldLineComplete(lines[0], headers[0]);
    FindFromIsFind(block, CRLF, begin);
    if |lines| == 1 {
      assert headers == [headers[0]] && block[begin..|block|] == block[begin..] == lines[0];
    } else {
      var tail := Joined(lines[1..]);
      FindLine(lines[0], tail);
      CutLine(lines[0], tail);
      CutSum(block, begin, |lines[0]| + 2);
      assert block[begin..begin + |lines[0]|] == block[begin..][..|lines[0]|];
      FieldsComplete(block, begin + |lines[0]| + 2, lines[1..], headers[1..]);
      assert headers == [headers[0]] + headers[1..];
      assert tail != "" by { FieldLineComplete(lines[1], headers[1]); }
    }
  }

  lemma HeadBlockComplete(lines: seq<string>, h: ParsedHead)
    requires IsHead(lines, h)
    ensures HeadOf(Joined(lines)) == Ok(h)
  {
    hide ParseStatusLine, ParseFields, Find, IsStatusLine, IsFieldLine;
    var block := Joined(lines);
    StatusLineComplete(lines[0], h.status, h.reason);
    if |lines| > 1 {
      var tail := Joined(lines[1..]);
      FindLine(lines[0], tail);
      CutLine(lines[0], tail);
      FieldsComplete(block, |lines[0]| + 2, lines[1..], h.headers);
    }
  }

  lemma HeadIsLines(lines: seq<string>, h: ParsedHead)
    requires IsHead(lines, h)
    ensures AreLines(lines)
  {
    hide Find, IsStatusLine, IsFieldLine;
    StatusLineComplete(lines[0], h.status, h.reason);
    forall i | 0 <= i < |lines[1..]| ensures lines[1..][i] != "" && Find(lines[1..][i], CRLF) < 0 {
      FieldLineComplete(lines[1..][i], h.headers[i]);
    }
    assert forall i :: 0 < i < |lines| ==> lines[i] == lines[1..][i - 1];
  }

  lemma IsHeadNotEmpty(lines: seq<string>, h: ParsedHead)
    requires IsHead(lines, h)
    ensures lines != []
  {
  }

  /** A head of the grammar is found whole, parsed to its meaning, and the search stops right after it. */
  lemma HeadComplete(lines: seq<string>, h: ParsedHead, tail: string)
    requires IsHead(lines, h)
    ensures var s, end := LinesThen(lines, CRLF + tail), LinesSize(lines) - 2;
            && Find(s, BLANK_LINE) == end && end + 4 <= |s|
            && HeadOf(s[..end]) == Ok(h) && s[end + 4..] == tail
  {
    hide Find, HeadOf, IsHead;
    HeadIsLines(lines, h);
    assert lines != [] by { HeadBlockComplete(lines, h); IsHeadNotEmpty(lines, h); }
    BlankLineAfter(lines, tail);
    HeadBlockComplete(lines, h);
    JoinedThen(lines, tail);
    CutAtSeam(Joined(lines), BLANK_LINE + tail);
    CutSum(LinesThen(lines, CRLF + tail), |Joined(lines)|, 4);
    CutAtSeam(BLANK_LINE, tail);
  }

  predicate EndsLine(block: string) { |block| >= 2 && block[|block| - 2] == '\r' && block[|block| - 1] == '\n' }

  lemma {:induction false} FieldsSound(block: string, begin: nat) returns (lines: seq<string>)
    requires begin < |block| && !EndsLine(block) && ParseFields(block, begin).Ok?
    ensures lines != [] && AreFieldLines(lines, ParseFields(block, begin).value) && block[begin..] == Joined(lines)
    decreases |block| - begin
  {
    hide ParseField, Find, IsFieldLine, FindFrom;
    FindFromRun(block, CRLF, begin);
    var end := FindFrom(block, CRLF, begin);
    var stop := if end < 0 then |block| else end;
    var line := block[begin..stop];
    FieldLineSound(line);
    if end < 0 {
      lines := [line];
    } else {
      assert block[end] == CRLF[0] && block[end + 1] == CRLF[1];
      var rest := FieldsSound(block, end + 2);
      lines := [line] + rest;
      assert lines[1..] == rest;
      assert block[begin..] == line + (CRLF + block[end + 2..]);
    }
  }

  lemma FoundAt(s: string, pat: string)
    requires Find(s, pat) >= 0
    ensures At(s, pat, Find(s, pat))
  {
    FindRun(s, pat);
  }

  lemma BlockDoesNotEndLine(s: string)
    requires Find(s, BLANK_LINE) >= 0
    ensures !EndsLine(s[..Find(s, BLANK_LINE)])
  {
    hide Find;
    var end := Find(s, BLANK_LINE);
    FoundAt(s, BLANK_LINE);
    assert s[end] == BLANK_LINE[0] && s[end + 1] == BLANK_LINE[1];
    assert EndsLine(s[..end]) ==> At(s, BLANK_LINE, end - 2);
    FindRun(s, BLANK_LINE);
  }

  lemma BlockSound(block: string) returns (lines: seq<string>)
    requires !EndsLine(block) && HeadOf(block).Ok?
    ensures IsHead(lines, HeadOf(block).value) && block == Joined(lines)
  {
    hide Find, ParseStatusLine, ParseFields, IsStatusLine, IsFieldLine;
    var end := Find(block, CRLF);
    if end < 0 {
      StatusLineSound(block);
      lines := [block];
    } else {
      FindRun(block, CRLF);
      assert block[end] == CRLF[0] && block[end + 1] == CRLF[1];
      StatusLineSound(block[..end]);
      var fields := FieldsSound(block, end + 2);
      lines := [block[..end]] + fields;
      assert lines[1..] == fields;
      assert block == block[..end] + (CRLF + block[end + 2..]);
    }
  }

  /** What the parser takes for a head is one of the grammar. */
  lemma HeadSound(s: string) returns (lines: seq<string>)
    requires Find(s, BLANK_LINE) >= 0 && HeadOf(s[..Find(s, BLANK_LINE)]).Ok?
    ensures var end := Find(s, BLANK_LINE);
            && IsHead(lines, HeadOf(s[..end]).value)
            && s == LinesThen(lines, CRLF + s[end + 4..]) && LinesSize(lines) == end + 2
  {
    hide Find, ParseStatusLine, ParseFields, IsStatusLine, IsFieldLine;
    var end := Find(s, BLANK_LINE);
    var block := s[..end];
    BlockDoesNotEndLine(s);
    lines := BlockSound(block);
    JoinedThen(lines, s[end + 4..]);
    FindRun(s, BLANK_LINE);
    AtIsSlice(s, BLANK_LINE, end);
    CutTwice(s, end, end + 4);
    Regroup(block, BLANK_LINE, s[end + 4..]);
  }

  // ---------- Fields of one name ----------

  ghost predicate Has(headers: Headers, name: string) { exists i :: 0 <= i < |headers| && Named(headers[i], name) }

  lemma {:induction false} ValuesCounted(headers: Headers, n: nat, name: string)
    requires n <= |headers|
    ensures ValuesUpTo(headers, n, name) == [] <==> forall i :: 0 <= i < n ==> !Named(headers[i], name)
    ensures |ValuesUpTo(headers, n, name)| <= 1 <==>
            forall i, j :: 0 <= i < j < n ==> !Named(headers[i], name) || !Named(headers[j], name)
    ensures |ValuesUpTo(headers, n, name)| == 1 ==>
            forall i :: 0 <= i < n && Named(headers[i], name) ==> headers[i].value == ValuesUpTo(headers, n, name)[0]
  {
    hide Named;
    if n > 0 {
      ValuesCounted(headers, n - 1, name);
      if Named(headers[n - 1], name) && ValuesUpTo(headers, n - 1, name) != [] {
        var i :| 0 <= i < n - 1 && Named(headers[i], name);
      }
    }
  }
}
