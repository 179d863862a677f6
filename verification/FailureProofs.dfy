/** The code any input fails with, told from its text: which head cannot be read, which is refused, which body
 breaks. Whatever is not listed does not fail. */
module FailureProofs {
  import opened Results
  import opened Text
  import opened Limits
  import opened Heads
  import opened HeadProofs
  import opened Parser
  import opened ParserProofs
  import opened MessageProofs
  import opened ChunkedProofs
  import opened CutProofs
  import opened FramingProofs
  import Chunked
  import VerdictProofs

  // ---------- Heads that cannot be read ----------

  ghost predicate BeginsWithHead(s: string, lines: seq<string>, rest: string) {
    AreHeadLines(lines) && s == LinesThen(lines, CRLF + rest)
  }

  ghost predicate IsSomeStatusLine(line: string) {
    exists status: nat, reason: string :: IsStatusLine(line, status, reason)
  }

  ghost predicate IsSomeFieldLine(line: string) { exists f: Field :: IsFieldLine(line, f) }

  /** The first line is no status line, or it is one and another line is no field. */
  ghost predicate AreBadLines(lines: seq<string>, e: ErrorCode)
    requires lines != []
  {
    if !IsSomeStatusLine(lines[0]) then e == InvalidStatusLine
    else e == InvalidHeader && exists i :: 0 < i < |lines| && !IsSomeFieldLine(lines[i])
  }

  lemma StatusLineFails(line: string)
    ensures ParseStatusLine(line).Ok? <==> IsSomeStatusLine(line)
    ensures ParseStatusLine(line).Err? ==> ParseStatusLine(line) == Err(InvalidStatusLine)
  {
    hide NatOf, IsNumeral;
    if ParseStatusLine(line).Ok? {
      StatusLineSound(line);
    }
    if status: nat, reason: string :| IsStatusLine(line, status, reason) {
      StatusLineComplete(line, status, reason);
    }
  }

  lemma FieldLineFails(line: string)
    ensures ParseField(line).Ok? <==> IsSomeFieldLine(line)
    ensures ParseField(line).Err? ==> ParseField(line) == Err(InvalidHeader)
  {
    hide Trimmed, FindChar;
    if ParseField(line).Ok? {
      FieldLineSound(line);
    }
    if f: Field :| IsFieldLine(line, f) {
      FieldLineComplete(line, f);
    }
  }

  predicate AllRead(lines: seq<string>) { forall i :: 0 <= i < |lines| ==> ParseField(lines[i]).Ok? }

  lemma {:induction false} FieldsFail(block: string, begin: nat, lines: seq<string>)
    requires AreLines(lines) && lines != [] && begin <= |block| && block[begin..] == Joined(lines)
    ensures ParseFields(block, begin).Ok? <==> AllRead(lines)
    ensures ParseFields(block, begin).Err? ==> ParseFields(block, begin) == Err(InvalidHeader)
    decreases |lines|
  {
    hide ParseField, Find, FindFrom, IsSomeFieldLine;
    FieldLineFails(lines[0]);
    FindFromIsFind(block, CRLF, begin);
    if |lines| == 1 {
      assert block[begin..|block|] == block[begin..] == lines[0];
    } else {
      var tail := Joined(lines[1..]);
      FindLine(lines[0], tail);
      CutLine(lines[0], tail);
      CutSum(block, begin, |lines[0]| + 2);
      assert block[begin..begin + |lines[0]|] == block[begin..][..|lines[0]|];
      FieldsFail(block, begin + |lines[0]| + 2, lines[1..]);
      assert tail != "" by { assert lines[1] != ""; }
      assert forall i :: 0 < i < |lines| ==> lines[i] == lines[1..][i - 1];
    }
  }

  lemma HeadFails(lines: seq<string>)
    requires AreHeadLines(lines)
    ensures forall e :: HeadOf(Joined(lines)) == Err(e) <==> AreBadLines(lines, e)
  {
    hide ParseStatusLine, ParseFields, ParseField, Find, IsSomeStatusLine, IsSomeFieldLine;
    StatusLineFails(lines[0]);
    forall i | 0 < i < |lines| ensures ParseField(lines[i]).Ok? <==> IsSomeFieldLine(lines[i]) {
      FieldLineFails(lines[i]);
    }
    assert forall i :: 0 < i < |lines| ==> lines[i] == lines[1..][i - 1];
    if |lines| > 1 {
      var tail := Joined(lines[1..]);
      FindLine(lines[0], tail);
      CutLine(lines[0], tail);
      FieldsFail(Joined(lines), |lines[0]| + 2, lines[1..]);
    }
  }

  lemma ConsLine(line: string, lines: seq<string>, tail: string)
    ensures LinesThen([line] + lines, tail) == line + (CRLF + LinesThen(lines, tail))
    ensures LinesSize([line] + lines) == |line| + 2 + LinesSize(lines)
    ensures Find(line, CRLF) < 0 && (lines == [] || (AreHeadLines(lines) && lines[0] != "")) ==>
              AreHeadLines([line] + lines)
  {
    hide Find;
    assert ([line] + lines)[1..] == lines;
  }

  lemma NoLines(tail: string)
    ensures LinesThen([], tail) == tail && LinesSize([]) == 0
  {
  }

  lemma FirstIsNotEmpty(lines: seq<string>, tail: string)
    requires AreHeadLines(lines) && Find(LinesThen(lines, tail), CRLF) != 0
    ensures lines[0] != ""
  {
    hide Find;
    FindLine(lines[0], LinesThen(lines[1..], tail));
  }

  /** The first CRLF is no later than the first empty line; if it is there, what follows is the second. */
  lemma FirstCrlf(s: string)
    requires Find(s, BLANK_LINE) >= 0
    ensures var end, i := Find(s, BLANK_LINE), Find(s, CRLF);
            && 0 <= i <= end && (i < end ==> i + 2 <= end)
            && (i == end ==> s[i + 2..] == CRLF + s[end + 4..])
  {
    hide Find;
    var end, i := Find(s, BLANK_LINE), Find(s, CRLF);
    FindRun(s, BLANK_LINE);
    FindRun(s, CRLF);
    BlankIsTwoCrlf(s, end);
    assert s[i + 1] == CRLF[1] && s[end] == CRLF[0];
    if i == end {
      AtIsSlice(s, CRLF, end + 2);
      assert s[end + 2..] == s[end + 2..end + 4] + s[end + 4..];
    }
  }

  /** The first empty line after a line that does not end at it is that of what follows. */
  lemma NextBlank(line: string, next: string, end: nat)
    requires Find(line, CRLF) < 0 && Find(line + (CRLF + next), BLANK_LINE) == end >= |line| + 2
    ensures Find(next, BLANK_LINE) == end - |line| - 2 && Find(next, CRLF) != 0
  {
    hide Find;
    var s, k := line + (CRLF + next), end - |line| - 2;
    FindRun(s, BLANK_LINE);
    FindRun(next, CRLF);
    AtAfter(line, next, BLANK_LINE, k);
    AtAfter(line, next, CRLF, 0);
    assert s[|line|] == CRLF[0] && s[|line| + 1] == CRLF[1];
    BlankIsTwoCrlf(s, |line|);
    forall j: nat | j < k ensures !At(next, BLANK_LINE, j) {
      AtAfter(line, next, BLANK_LINE, j);
    }
    FindIs(next, BLANK_LINE, k);
  }

  /** The lines of the head that ends at the first empty line. */
  lemma {:induction false} LinesOff(s: string) returns (lines: seq<string>)
    requires Find(s, BLANK_LINE) >= 0
    ensures var end := Find(s, BLANK_LINE); BeginsWithHead(s, lines, s[end + 4..]) && LinesSize(lines) == end + 2
    decreases |s|
  {
    hide Find, LinesThen, LinesSize, AreHeadLines;
    var end, i := Find(s, BLANK_LINE), Find(s, CRLF);
    FirstCrlf(s);
    LineLacksCrlf(s);
    var line, next := s[..i], s[i + 2..];
    if i == end {
      lines := [line] + [];
      ConsLine(line, [], CRLF + s[end + 4..]);
      NoLines(CRLF + s[end + 4..]);
    } else {
      NextBlank(line, next, end);
      var rest := LinesOff(next);
      var after := next[Find(next, BLANK_LINE) + 4..];
      CutSum(s, i + 2, Find(next, BLANK_LINE) + 4);
      FirstIsNotEmpty(rest, CRLF + after);
      lines := [line] + rest;
      ConsLine(line, rest, CRLF + after);
    }
  }

  lemma FirstOfNext(lines: seq<string>, rest: string)
    requires AreHeadLines(lines)
    ensures var next := LinesThen(lines[1..], CRLF + rest);
            if |lines| == 1 then next == CRLF + rest && Find(next, CRLF) == 0 else Find(next, CRLF) > 0
  {
    hide Find;
    if |lines| == 1 {
      FindNothing();
      FindLine("", rest);
      assert "" + (CRLF + rest) == CRLF + rest;
    } else {
      FindLine(lines[1], LinesThen(lines[2..], CRLF + rest));
      assert lines[1..][1..] == lines[2..];
    }
  }

  /** The lines before the first empty line, and what follows it, are determined by the text. */
  lemma {:induction false} OneHead(s: string, a: seq<string>, x: string, b: seq<string>, y: string)
    requires BeginsWithHead(s, a, x) && BeginsWithHead(s, b, y)
    ensures a == b && x == y
    decreases |a|
  {
    hide Find, LinesSize;
    var p, q := LinesThen(a[1..], CRLF + x), LinesThen(b[1..], CRLF + y);
    FindLine(a[0], p);
    FindLine(b[0], q);
    CutLine(a[0], p);
    CutLine(b[0], q);
    assert p == q;
    FirstOfNext(a, x);
    FirstOfNext(b, y);
    if |a| == 1 || |b| == 1 {
      CutAtSeam(CRLF, x);
      CutAtSeam(CRLF, y);
      assert a == [a[0]] && b == [b[0]];
    } else {
      OneHead(p, a[1..], x, b[1..], y);
      assert a == [a[0]] + a[1..] && b == [b[0]] + b[1..];
    }
  }

  /** A head is lines of a head. */
  lemma HeadIsHeadLines(lines: seq<string>, h: ParsedHead)
    requires IsHead(lines, h)
    ensures AreHeadLines(lines)
  {
    hide Find, IsStatusLine, IsFieldLine;
    HeadIsLines(lines, h);
  }

  lemma HeadMeans(lines: seq<string>, h: ParsedHead)
    requires AreHeadLines(lines)
    ensures IsHead(lines, h) <==> HeadOf(Joined(lines)) == Ok(h)
  {
    hide Find, HeadOf, IsHead, LinesThen;
    if IsHead(lines, h) {
      HeadBlockComplete(lines, h);
    }
    if HeadOf(Joined(lines)) == Ok(h) {
      var s := LinesThen(lines, CRLF + "");
      BlankLineAfter(lines, "");
      JoinedThen(lines, "");
      CutAtSeam(Joined(lines), BLANK_LINE + "");
      var mine := HeadSound(s);
      HeadIsHeadLines(mine, h);
      OneHead(s, lines, "", mine, s[LinesSize(lines) + 2..]);
    }
  }

  // ---------- Heads that fail ----------

  ghost predicate FailsAt(m: Method, lim: ResponseLimits, lines: seq<string>, e: ErrorCode)
    requires lines != []
  {
    if LinesSize(lines) + 2 > lim.maxHead then e == ResponseLimitExceeded
    else || AreBadLines(lines, e)
         || exists h: ParsedHead :: IsHead(lines, h) && IsRefused(m, lim, h.status, h.headers, e)
  }

  /** A head that is too long before or at its end, cannot be read, or is refused. */
  ghost predicate IsBadHead(m: Method, lim: ResponseLimits, s: string, e: ErrorCode) {
    || (|s| > lim.maxHead && e == ResponseLimitExceeded &&
        forall lines: seq<string>, rest: string :: !BeginsWithHead(s, lines, rest))
    || exists lines: seq<string>, rest: string :: BeginsWithHead(s, lines, rest) && FailsAt(m, lim, lines, e)
  }

  /** What follows once a head has been read. */
  function AfterHead(m: Method, lim: ResponseLimits, next: State, head: ParsedHead): Result<State> {
    var d := Decide(m, lim, head.status, head.headers);
    if d.Reject? then Err(d.error) else if d.Interim? then ReadHeads(m, lim, next) else Ok(Begin(m, next, head, d))
  }

  /** One head block, from its lines. */
  lemma HeadTurn(m: Method, lim: ResponseLimits, st: State, lines: seq<string>, rest: string)
    requires st.stage == AtHead && BeginsWithHead(st.buffer, lines, rest)
    ensures var next := st.(buffer := rest);
            var head := HeadOf(Joined(lines));
            ReadHeads(m, lim, st) ==
            if LinesSize(lines) + 2 > lim.maxHead then Err(ResponseLimitExceeded)
            else if head.Err? then Err(head.error)
            else AfterHead(m, lim, next, head.value)
  {
    hide ReadHeads, Find, HeadOf, Decide, Begin, AreHeadLines;
    var end := LinesSize(lines) - 2;
    BlankLineAfter(lines, rest);
    JoinedThen(lines, rest);
    CutAtSeam(Joined(lines), BLANK_LINE + rest);
    CutSum(st.buffer, |Joined(lines)|, 4);
    CutAtSeam(BLANK_LINE, rest);
    HeadsUnfold(m, lim, st, end);
  }

  /** What one head block does, from the text: fail, be passed over, or lead to the body. */
  lemma HeadVerdict(m: Method, lim: ResponseLimits, st: State, lines: seq<string>, rest: string)
    requires st.stage == AtHead && BeginsWithHead(st.buffer, lines, rest)
    ensures var r := ReadHeads(m, lim, st);
            if LinesSize(lines) + 2 <= lim.maxHead && IsPassedHead(lim, lines)
            then r == ReadHeads(m, lim, st.(buffer := rest)) && forall e :: !FailsAt(m, lim, lines, e)
            else forall e :: r == Err(e) <==> FailsAt(m, lim, lines, e)
  {
    hide ReadHeads, HeadOf, Decide, Begin, AreBadLines, IsHead, IsRefused, IsPassedOver, LinesThen, Find;
    HeadTurn(m, lim, st, lines, rest);
    HeadFails(lines);
    var head := HeadOf(Joined(lines));
    forall h: ParsedHead ensures IsHead(lines, h) <==> head == Ok(h) {
      HeadMeans(lines, h);
    }
    if head.Ok? {
      var h := head.value;
      forall e ensures Decide(m, lim, h.status, h.headers) == Reject(e) <==> IsRefused(m, lim, h.status, h.headers, e) {
        RefusedExact(m, lim, h.status, h.headers, e);
      }
      PassedOverExact(m, lim, h.status, h.headers);
    }
  }

  /** Heads that are passed over, and then one that fails. */
  ghost predicate AreBadHeads(m: Method, lim: ResponseLimits, s: string, e: ErrorCode) {
    exists interims: seq<seq<string>>, tail: string ::
      ArePassed(lim, interims) && s == InterimsThen(interims, tail) && IsBadHead(m, lim, tail, e)
  }

  lemma NoInterimsThen(lim: ResponseLimits, s: string)
    ensures ArePassed(lim, []) && InterimsThen([], s) == s
  {
  }

  lemma OneMoreInterim(lim: ResponseLimits, first: seq<string>, interims: seq<seq<string>>, tail: string)
    requires IsPassedHead(lim, first) && ArePassed(lim, interims)
    ensures ArePassed(lim, [first] + interims)
    ensures InterimsThen([first] + interims, tail) == LinesThen(first, CRLF + InterimsThen(interims, tail))
  {
    hide IsPassedHead, LinesThen;
    assert ([first] + interims)[1..] == interims;
  }

  lemma PassedIsLines(lim: ResponseLimits, lines: seq<string>)
    requires IsPassedHead(lim, lines)
    ensures AreHeadLines(lines) && LinesSize(lines) + 2 <= lim.maxHead
  {
    hide IsHead, IsPassedOver, AreHeadLines;
    var h :| IsHeadWithin(lim, lines, h) && IsPassedOver(h.status, h.headers);
    HeadIsHeadLines(lines, h);
  }

  lemma AtLeastOne(lines: seq<string>)
    requires AreHeadLines(lines)
    ensures LinesSize(lines) >= 2
  {
    hide Find;
  }

  lemma HeadlessFails(m: Method, lim: ResponseLimits, st: State)
    requires st.stage == AtHead && Find(st.buffer, BLANK_LINE) < 0
    ensures forall lines: seq<string>, rest: string :: !BeginsWithHead(st.buffer, lines, rest)
    ensures forall e :: ReadHeads(m, lim, st) == Err(e) <==> IsBadHead(m, lim, st.buffer, e)
  {
    hide ReadHeads, Find, AreHeadLines, FailsAt;
    HeadsPending(m, lim, st, "");
    forall lines: seq<string>, rest: string | AreHeadLines(lines) ensures st.buffer != LinesThen(lines, CRLF + rest) {
      BlankLineAfter(lines, rest);
      AtLeastOne(lines);
    }
  }

  lemma BadHeadHere(m: Method, lim: ResponseLimits, s: string, lines: seq<string>, rest: string, e: ErrorCode)
    requires BeginsWithHead(s, lines, rest)
    ensures IsBadHead(m, lim, s, e) <==> FailsAt(m, lim, lines, e)
  {
    hide Find, FailsAt, LinesThen;
    forall a: seq<string>, x: string | BeginsWithHead(s, a, x) ensures a == lines {
      OneHead(s, a, x, lines, rest);
    }
  }

  lemma BadHeadsOff(m: Method, lim: ResponseLimits, s: string, lines: seq<string>, rest: string, e: ErrorCode)
    requires BeginsWithHead(s, lines, rest) && AreBadHeads(m, lim, s, e)
    ensures FailsAt(m, lim, lines, e) || (IsPassedHead(lim, lines) && AreBadHeads(m, lim, rest, e))
  {
    hide Find, FailsAt, IsPassedHead, LinesThen, IsBadHead;
    var interims: seq<seq<string>>, tail: string :|
      ArePassed(lim, interims) && s == InterimsThen(interims, tail) && IsBadHead(m, lim, tail, e);
    if interims == [] {
      BadHeadHere(m, lim, s, lines, rest, e);
    } else {
      var next := InterimsThen(interims[1..], tail);
      PassedIsLines(lim, interims[0]);
      OneHead(s, interims[0], next, lines, rest);
      assert ArePassed(lim, interims[1..]);
    }
  }

  lemma BadHeadsOn(m: Method, lim: ResponseLimits, s: string, lines: seq<string>, rest: string, e: ErrorCode)
    requires BeginsWithHead(s, lines, rest)
    requires FailsAt(m, lim, lines, e) || (IsPassedHead(lim, lines) && AreBadHeads(m, lim, rest, e))
    ensures AreBadHeads(m, lim, s, e)
  {
    hide FailsAt, IsPassedHead, LinesThen, IsBadHead, ArePassed, InterimsThen, Find;
    if FailsAt(m, lim, lines, e) {
      BadHeadHere(m, lim, s, lines, rest, e);
      NoInterimsThen(lim, s);
    } else {
      var interims: seq<seq<string>>, tail: string :|
        ArePassed(lim, interims) && rest == InterimsThen(interims, tail) && IsBadHead(m, lim, tail, e);
      OneMoreInterim(lim, lines, interims, tail);
    }
  }

  /** A text that fails with bad heads, from its first head. */
  lemma BadHeadsTurn(m: Method, lim: ResponseLimits, s: string, lines: seq<string>, rest: string, e: ErrorCode)
    requires BeginsWithHead(s, lines, rest)
    ensures AreBadHeads(m, lim, s, e) <==>
            FailsAt(m, lim, lines, e) || (IsPassedHead(lim, lines) && AreBadHeads(m, lim, rest, e))
  {
    hide FailsAt, IsPassedHead, AreBadHeads, LinesThen, Find;
    if AreBadHeads(m, lim, s, e) {
      BadHeadsOff(m, lim, s, lines, rest, e);
    } else if FailsAt(m, lim, lines, e) || (IsPassedHead(lim, lines) && AreBadHeads(m, lim, rest, e)) {
      BadHeadsOn(m, lim, s, lines, rest, e);
    }
  }

  lemma HeadlessBadHeads(m: Method, lim: ResponseLimits, s: string, e: ErrorCode)
    requires forall lines: seq<string>, rest: string :: !BeginsWithHead(s, lines, rest)
    ensures AreBadHeads(m, lim, s, e) <==> IsBadHead(m, lim, s, e)
  {
    hide AreHeadLines, FailsAt, IsPassedHead, LinesThen, IsBadHead;
    NoInterimsThen(lim, s);
    forall interims: seq<seq<string>>, tail: string | ArePassed(lim, interims) && s == InterimsThen(interims, tail)
      ensures interims == []
    {
      if interims != [] {
        PassedIsLines(lim, interims[0]);
        assert BeginsWithHead(s, interims[0], InterimsThen(interims[1..], tail));
      }
    }
  }

  lemma {:induction false} HeadsVerdict(m: Method, lim: ResponseLimits, st: State)
    requires st.stage == AtHead
    ensures forall e :: ReadHeads(m, lim, st) == Err(e) <==> AreBadHeads(m, lim, st.buffer, e)
    decreases |st.buffer|
  {
    hide ReadHeads, Find, BeginsWithHead, FailsAt, IsPassedHead, AreBadHeads, IsBadHead;
    if Find(st.buffer, BLANK_LINE) < 0 {
      HeadlessFails(m, lim, st);
      forall e ensures AreBadHeads(m, lim, st.buffer, e) <==> IsBadHead(m, lim, st.buffer, e) {
        HeadlessBadHeads(m, lim, st.buffer, e);
      }
    } else {
      var lines := LinesOff(st.buffer);
      var rest := st.buffer[Find(st.buffer, BLANK_LINE) + 4..];
      HeadVerdict(m, lim, st, lines, rest);
      HeadsVerdict(m, lim, st.(buffer := rest));
      forall e
        ensures AreBadHeads(m, lim, st.buffer, e) <==>
                FailsAt(m, lim, lines, e) || (IsPassedHead(lim, lines) && AreBadHeads(m, lim, rest, e))
      {
        BadHeadsTurn(m, lim, st.buffer, lines, rest, e);
      }
      if IsPassedHead(lim, lines) {
        PassedIsLines(lim, lines);
      }
    }
  }

  // ---------- Bodies that fail ----------

  /** A body that cannot be chunked, is too long, or is there and must not be. */
  ghost predicate IsBadBody(m: Method, lim: ResponseLimits, h: ParsedHead, rest: string, e: ErrorCode) {
    || (&& m != Head && h.status != 204 && h.status != 304 && (h.status < 100 || h.status >= 200)
        && IsReadable(h.headers) && IsChunked(h.headers) && FailsWith(lim, h, rest, e))
    || (RunsToTheEnd(m, h.status, h.headers) &&
        if h.status == 205 then rest != "" && e == MalformedResponse
        else |rest| > lim.maxBody && e == ResponseLimitExceeded)
  }

  /** Heads that are passed over, then the head `h`, then `rest`. */
  ghost predicate IsFinal(lim: ResponseLimits, s: string, h: ParsedHead, rest: string) {
    exists interims: seq<seq<string>>, lines: seq<string> ::
      && ArePassed(lim, interims) && IsHeadWithin(lim, lines, h)
      && s == InterimsThen(interims, LinesThen(lines, CRLF + rest))
  }

  /** Heads that are passed over, and then one that fails, or a final one whose body does. */
  ghost predicate IsBadResponse(m: Method, lim: ResponseLimits, s: string, e: ErrorCode) {
    || AreBadHeads(m, lim, s, e)
    || exists h: ParsedHead, rest: string :: IsFinal(lim, s, h, rest) && IsBadBody(m, lim, h, rest, e)
  }

  lemma ChunkedDecision(m: Method, lim: ResponseLimits, status: nat, headers: Headers)
    ensures Decide(m, lim, status, headers).ChunkedCoding? <==>
            && m != Head && status != 204 && status != 304 && (status < 100 || status >= 200)
            && IsReadable(headers) && IsChunked(headers)
  {
    hide FramingOf, WellFramed, IsReadable, ValuesUpTo, CodingsUpTo, IEquals, Number, IsChunked;
    ReadableIs(headers);
    FramingExact(headers);
    CodingsPresence(headers);
    ChunkedIs(headers);
  }

  lemma DecodeFails(lim: ResponseLimits, h: ParsedHead, tail: string)
    ensures var run := Chunked.Decode(lim, Chunked.START, tail, "");
            forall e :: FailsWith(lim, h, tail, e) <==>
              if run.status.Failed? then e == run.status.error
              else h.status == 205 && run.body != "" && e == MalformedResponse
  {
    hide Chunked.Decode, VerdictProofs.IsBroken, VerdictProofs.IsOpen, VerdictProofs.HasData;
    VerdictProofs.VerdictExact(lim, tail);
    VerdictProofs.DataExact(lim, tail);
    DecodeErrors(lim, Chunked.START, tail, "");
  }

  /** The state right after the final head, and what becomes of the body. */
  lemma BodyVerdict(m: Method, lim: ResponseLimits, h: ParsedHead, rest: string, e: ErrorCode)
    requires var d := Decide(m, lim, h.status, h.headers); !d.Reject? && !d.Interim?
    ensures Deliver(lim, Begin(m, START.(buffer := rest), h, Decide(m, lim, h.status, h.headers))) == Err(e) <==>
            IsBadBody(m, lim, h, rest, e)
  {
    hide Decide, Chunked.Decode, IsReadable, IsChunked, FailsWith, IsHeaderTerminated, Closes;
    var d := Decide(m, lim, h.status, h.headers);
    ChunkedDecision(m, lim, h.status, h.headers);
    ToTheEndExact(m, lim, h.status, h.headers);
    if d.ChunkedCoding? || d.UntilClose? {
      NotHeaderTerminated(m, lim, Response(h.status, h.reason, h.headers, ""));
    }
    if d.ChunkedCoding? {
      DecodeFails(lim, h, rest);
    }
  }

  lemma BadBodyIsFinal(m: Method, lim: ResponseLimits, h: ParsedHead, rest: string, e: ErrorCode)
    requires IsBadBody(m, lim, h, rest, e)
    ensures var d := Decide(m, lim, h.status, h.headers); d.ChunkedCoding? || d.UntilClose?
  {
    hide Decide, IsReadable, IsChunked, FailsWith, RunsToTheEnd;
    ChunkedDecision(m, lim, h.status, h.headers);
    ToTheEndExact(m, lim, h.status, h.headers);
  }

  lemma FinalRead(m: Method, lim: ResponseLimits, s: string, h: ParsedHead, rest: string)
    requires IsFinal(lim, s, h, rest)
    requires var d := Decide(m, lim, h.status, h.headers); !d.Reject? && !d.Interim?
    ensures ReadHeads(m, lim, START.(buffer := s)) ==
            Ok(Begin(m, START.(buffer := rest), h, Decide(m, lim, h.status, h.headers)))
  {
    hide ReadHeads, Decide, Begin, ArePassed, AreInterims, IsHeadWithin, InterimsThen, LinesThen;
    var interims: seq<seq<string>>, lines: seq<string> :|
      && ArePassed(lim, interims) && IsHeadWithin(lim, lines, h)
      && s == InterimsThen(interims, LinesThen(lines, CRLF + rest));
    PassedIs(m, lim, interims);
    HeadsComplete(m, lim, START.(buffer := s), interims, lines, h, rest);
  }

  lemma FinalFound(m: Method, lim: ResponseLimits, s: string) returns (h: ParsedHead, rest: string)
    requires var r := ReadHeads(m, lim, START.(buffer := s)); r.Ok? && r.value.stage != AtHead
    ensures IsFinal(lim, s, h, rest)
    ensures var d := Decide(m, lim, h.status, h.headers); !d.Reject? && !d.Interim?
  {
    hide ReadHeads, Decide, Begin, ArePassed, AreInterims, IsHeadWithin, InterimsThen, LinesThen;
    var start := START.(buffer := s);
    var t := ReadHeads(m, lim, start).value;
    var interims, lines := HeadsSound(m, lim, start);
    h, rest := HeadOfResponse(t.response), t.buffer;
    PassedIs(m, lim, interims);
  }

  /** With its heads read, the parser fails exactly if the body is bad. */
  lemma BodyFails(m: Method, lim: ResponseLimits, s: string, e: ErrorCode)
    requires var r := ReadHeads(m, lim, START.(buffer := s)); r.Ok? && r.value.stage != AtHead
    ensures Fed(m, lim, START, s) == Err(e) ==>
              exists h: ParsedHead, rest: string :: IsFinal(lim, s, h, rest) && IsBadBody(m, lim, h, rest, e)
  {
    hide Fed, ReadHeads, Deliver, Decide, Begin, IsFinal, IsBadBody;
    FedFromStart(m, lim, s);
    var h, rest := FinalFound(m, lim, s);
    FinalRead(m, lim, s, h, rest);
    BodyVerdict(m, lim, h, rest, e);
    PastHead(m, lim, ReadHeads(m, lim, START.(buffer := s)).value);
  }

  lemma BadBodyFails(m: Method, lim: ResponseLimits, s: string, h: ParsedHead, rest: string, e: ErrorCode)
    requires IsFinal(lim, s, h, rest) && IsBadBody(m, lim, h, rest, e)
    ensures Fed(m, lim, START, s) == Err(e)
  {
    hide Fed, ReadHeads, Deliver, Decide, Begin, IsFinal, IsBadBody;
    FedFromStart(m, lim, s);
    BadBodyIsFinal(m, lim, h, rest, e);
    FinalRead(m, lim, s, h, rest);
    BodyVerdict(m, lim, h, rest, e);
    PastHead(m, lim, ReadHeads(m, lim, START.(buffer := s)).value);
  }

  lemma HeadsFail(m: Method, lim: ResponseLimits, s: string, e: ErrorCode)
    ensures AreBadHeads(m, lim, s, e) ==> Fed(m, lim, START, s) == Err(e)
    ensures var r := ReadHeads(m, lim, START.(buffer := s));
            Fed(m, lim, START, s) == Err(e) ==> AreBadHeads(m, lim, s, e) || (r.Ok? && r.value.stage != AtHead)
  {
    hide Fed, ReadHeads, Deliver, Decide, Begin, AreBadHeads;
    FedFromStart(m, lim, s);
    HeadsVerdict(m, lim, START.(buffer := s));
    if ReadHeads(m, lim, START.(buffer := s)).Ok? {
      PastHead(m, lim, ReadHeads(m, lim, START.(buffer := s)).value);
    }
  }

  /** The parser fails with a code exactly on the texts that are bad with that code. */
  lemma FailureExact(m: Method, lim: ResponseLimits, s: string, e: ErrorCode)
    ensures Fed(m, lim, START, s) == Err(e) <==> IsBadResponse(m, lim, s, e)
  {
    hide Fed, ReadHeads, AreBadHeads, IsFinal, IsBadBody;
    HeadsFail(m, lim, s, e);
    var r := ReadHeads(m, lim, START.(buffer := s));
    if r.Ok? && r.value.stage != AtHead {
      BodyFails(m, lim, s, e);
    }
    if h: ParsedHead, rest: string :| IsFinal(lim, s, h, rest) && IsBadBody(m, lim, h, rest, e) {
      BadBodyFails(m, lim, s, h, rest, e);
    }
  }
}
