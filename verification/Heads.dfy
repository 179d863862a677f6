/** Message heads: the parser of status line and header fields, and the framing analysis
 (src/http/response_parser.cpp, the free functions). */
module Heads {
  import opened Results
  import opened Text
  import opened Limits

  datatype Method = Get | Head | Post | Put | Patch | Delete

  datatype Field = Field(name: string, value: string)

  type Headers = seq<Field>

  datatype ParsedHead = ParsedHead(status: nat, reason: string, headers: Headers)

  predicate Named(f: Field, name: string) { IEquals(f.name, name) }

  // ---------- Parsing ----------

  const VERSION := "HTTP/1.1 "

  function ParseStatusLine(line: string): Result<(nat, string)> {
    if |line| < 12 || line[..9] != VERSION || !IsNumeral(line[9..12], 10) || NatOf(line[9..12], 10) < 100
    then Err(InvalidStatusLine)
    else if |line| == 12 then Ok((NatOf(line[9..12], 10), ""))
    else if line[12] != ' ' || !IsFieldText(line[13..]) then Err(InvalidStatusLine)
    else Ok((NatOf(line[9..12], 10), line[13..]))
  }

  function ParseField(line: string): Result<Field> {
    var colon := FindChar(line, ':');
    if line == "" || IsOws(line[0]) || colon <= 0 then Err(InvalidHeader)
    else
      var name, value := line[..colon], Trimmed(line[colon + 1..]);
      if IsToken(name) && IsFieldText(value) then Ok(Field(name, value)) else Err(InvalidHeader)
  }

  /** The fields on the lines of `block[begin..]`. */
  function ParseFields(block: string, begin: nat): Result<Headers>
    decreases |block| - begin
  {
    if begin >= |block| then Ok([])
    else
      var end := FindFrom(block, CRLF, begin);
      var field :- ParseField(block[begin..if end < 0 then |block| else end]);
      if end < 0 then Ok([field])
      else var rest :- ParseFields(block, end + 2); Ok([field] + rest)
  }

  function HeadOf(block: string): Result<ParsedHead> {
    var end := Find(block, CRLF);
    var first :- ParseStatusLine(if end < 0 then block else block[..end]);
    var headers :- (if end < 0 then Ok([]) else ParseFields(block, end + 2));
    Ok(ParsedHead(first.0, first.1, headers))
  }

  lemma NatOfNone(s: string, base: nat)
    ensures NatUpTo(s, 0, base) == 0
  {
  }

  lemma ThreeDigits(s: string)
    requires |s| == 3
    ensures IsNumeral(s, 10) <==> IsDigit(s[0]) && IsDigit(s[1]) && IsDigit(s[2])
    ensures IsNumeral(s, 10) ==> NatOf(s, 10) <= 999
  {
    hide NatUpTo;
    if IsNumeral(s, 10) {
      NatStep(s, 3, 10);
      NatStep(s, 2, 10);
      NatStep(s, 1, 10);
      NatOfNone(s, 10);
    }
  }

  /** The fields read so far, then the outcome of the rest. */
  ghost function Prepend(read: Headers, rest: Result<Headers>): Result<Headers> {
    match rest
    case Ok(fs) => Ok(read + fs)
    case Err(e) => Err(e)
  }

  lemma PrependNothing(rest: Result<Headers>)
    ensures Prepend([], rest) == rest
  {
    assert rest.Ok? ==> [] + rest.value == rest.value;
  }

  /** One turn of the field loop. */
  lemma PrependStep(read: Headers, block: string, begin: nat)
    requires begin < |block|
    ensures var end := FindFrom(block, CRLF, begin);
            var field := ParseField(block[begin..if end < 0 then |block| else end]);
            Prepend(read, ParseFields(block, begin)) ==
            match field
            case Err(e) => Err(e)
            case Ok(f) => if end < 0 then Ok(read + [f]) else Prepend(read + [f], ParseFields(block, end + 2))
  {
    hide ParseField, FindFrom;
    var end := FindFrom(block, CRLF, begin);
    var field := ParseField(block[begin..if end < 0 then |block| else end]);
    if field.Ok? && end >= 0 && ParseFields(block, end + 2).Ok? {
      assert read + ([field.value] + ParseFields(block, end + 2).value)
             == (read + [field.value]) + ParseFields(block, end + 2).value;
    }
  }

  method ParseStatus(line: string) returns (r: Result<(nat, string)>)
    ensures r == ParseStatusLine(line)
  {
    hide NatOf, DigitOf;
    if |line| < 12 || line[..9] != VERSION {
      return Err(InvalidStatusLine);
    }
    var digits := line[9..12];
    ThreeDigits(digits);
    if !IsDigit(line[9]) || !IsDigit(line[10]) || !IsDigit(line[11]) {
      return Err(InvalidStatusLine);
    }
    var code := FromChars(digits, 10);
    if code.None? || code.value < 100 || code.value > 999 {
      return Err(InvalidStatusLine);
    }
    var reason := "";
    if |line| > 12 {
      if line[12] != ' ' {
        return Err(InvalidStatusLine);
      }
      reason := line[13..];
      if !IsFieldText(reason) {
        return Err(InvalidStatusLine);
      }
    }
    return Ok((code.value, reason));
  }

  method ParseLine(line: string) returns (r: Result<Field>)
    ensures r == ParseField(line)
  {
    if line == "" || line[0] == ' ' || line[0] == '\t' {
      return Err(InvalidHeader);
    }
    var colon := FindChar(line, ':');
    if colon <= 0 {
      return Err(InvalidHeader);
    }
    var value := TrimOws(line[colon + 1..]);
    if !IsToken(line[..colon]) || !IsFieldText(value) {
      return Err(InvalidHeader);
    }
    return Ok(Field(line[..colon], value));
  }

  method ParseHead(block: string) returns (r: Result<ParsedHead>)
    ensures r == HeadOf(block)
  {
    hide ParseStatusLine, ParseField, Find, FindFrom;
    var firstLineEnd := Find(block, CRLF);
    var first := ParseStatus(if firstLineEnd < 0 then block else block[..firstLineEnd]);
    if first.Err? {
      return Err(first.error);
    }
    var headers: Headers := [];
    if firstLineEnd < 0 {
      return Ok(ParsedHead(first.value.0, first.value.1, headers));
    }
    var lineBegin := firstLineEnd + 2;
    PrependNothing(ParseFields(block, lineBegin));
    while lineBegin < |block|
      invariant 0 <= lineBegin
      invariant ParseFields(block, firstLineEnd + 2) == Prepend(headers, ParseFields(block, lineBegin))
    {
      PrependStep(headers, block, lineBegin);
      var lineEnd := FindFrom(block, CRLF, lineBegin);
      var field := ParseLine(block[lineBegin..if lineEnd < 0 then |block| else lineEnd]);
      if field.Err? {
        return Err(field.error);
      }
      headers := headers + [field.value];
      if lineEnd < 0 {
        return Ok(ParsedHead(first.value.0, first.value.1, headers));
      }
      lineBegin := lineEnd + 2;
    }
    assert headers + [] == headers;
    return Ok(ParsedHead(first.value.0, first.value.1, headers));
  }

  // ---------- Framing ----------

  /** The values of those of the first `n` fields that carry `name`, in order. */
  function ValuesUpTo(headers: Headers, n: nat, name: string): seq<string>
    requires n <= |headers|
  {
    if n == 0 then []
    else ValuesUpTo(headers, n - 1, name) + if Named(headers[n - 1], name) then [headers[n - 1].value] else []
  }

  function Values(headers: Headers, name: string): seq<string> { ValuesUpTo(headers, |headers|, name) }

  /** The transfer-coding tokens of the first `n` fields, in order. */
  function CodingsUpTo(headers: Headers, n: nat): seq<string>
    requires n <= |headers|
  {
    if n == 0 then []
    else if Named(headers[n - 1], "Transfer-Encoding") then CodingsUpTo(headers, n - 1) + Tokens(headers[n - 1].value)
    else CodingsUpTo(headers, n - 1)
  }

  function CodingFieldsUpTo(headers: Headers, n: nat): nat
    requires n <= |headers|
  {
    if n == 0 then 0
    else CodingFieldsUpTo(headers, n - 1) + if Named(headers[n - 1], "Transfer-Encoding") then 1 else 0
  }

  function Lengths(headers: Headers): seq<string> { Values(headers, "Content-Length") }

  function Codings(headers: Headers): seq<string> { CodingsUpTo(headers, |headers|) }

  predicate AsksToClose(f: Field) {
    Named(f, "Connection") && HasToken(f.value, "close")
  }

  predicate ClosesUpTo(headers: Headers, n: nat)
    requires n <= |headers|
  {
    exists i :: 0 <= i < n && AsksToClose(headers[i])
  }

  predicate AllChunked(tokens: seq<string>) {
    forall i :: 0 <= i < |tokens| ==> IEquals(tokens[i], "chunked")
  }

  /** What is wrong with one field, if anything. */
  function FieldError(f: Field): Option<ErrorCode> {
    if Named(f, "Content-Length") then (if Number(f.value, 10).None? then Some(InvalidContentLength) else None)
    else if Named(f, "Transfer-Encoding") && "" in Tokens(f.value) then Some(MalformedResponse)
    else None
  }

  /** The first error among the fields from `n` on. */
  function FirstError(headers: Headers, n: nat): Option<ErrorCode>
    requires n <= |headers|
    decreases |headers| - n
  {
    if n == |headers| then None
    else if FieldError(headers[n]).Some? then FieldError(headers[n])
    else FirstError(headers, n + 1)
  }

  /** The analysis: what the framing fields say, all together. */
  datatype FramingInfo = FramingInfo(
    lengthCount: nat,
    length: nat,
    codingFields: nat,
    codingTokens: nat,
    codingIsChunked: bool,
    closeRequested: bool)

  function InfoUpTo(headers: Headers, n: nat): FramingInfo
    requires n <= |headers|
  {
    var lengths, codings := ValuesUpTo(headers, n, "Content-Length"), CodingsUpTo(headers, n);
    var last := if lengths == [] then None else Number(lengths[|lengths| - 1], 10);
    FramingInfo(
      |lengths|,
      if last.Some? then last.value else 0,
      CodingFieldsUpTo(headers, n),
      |codings|,
      AllChunked(codings),
      ClosesUpTo(headers, n))
  }

  function FramingOf(headers: Headers): Result<FramingInfo> {
    match FirstError(headers, 0)
    case Some(e) => Err(e)
    case None => if |Lengths(headers)| > 1 then Err(InvalidContentLength) else Ok(InfoUpTo(headers, |headers|))
  }

  lemma OneMore(seen: seq<string>, one: string, rest: seq<string>)
    ensures seen + ([one] + rest) == (seen + [one]) + rest && (seen + ([one] + rest))[|seen|] == one
  {
  }

  lemma TokensEnd(value: string, begin: nat)
    requires begin > |value|
    ensures TokensFrom(value, begin) == []
  {
  }

  lemma AllChunkedNone()
    ensures AllChunked([])
  {
  }

  lemma AllChunkedAppend(seen: seq<string>, token: string)
    ensures AllChunked(seen + [token]) == (AllChunked(seen) && IEquals(token, "chunked"))
  {
    hide IEquals;
    var all := seen + [token];
    assert all[|seen|] == token;
    assert forall i :: 0 <= i < |seen| ==> all[i] == seen[i];
  }

  /** The coding-list loop of one Transfer-Encoding field. */
  method CountCodings(value: string, tokens: nat, chunked: bool) returns (ok: bool, tokens': nat, chunked': bool)
    ensures ok == ("" !in Tokens(value))
    ensures ok ==> tokens' == tokens + |Tokens(value)| && chunked' == (chunked && AllChunked(Tokens(value)))
  {
    hide IEquals, Trimmed, Until, TokensFrom, AllChunked;
    var begin := 0;
    tokens', chunked' := tokens, chunked;
    ghost var seen: seq<string> := [];
    AllChunkedNone();
    while begin <= |value|
      invariant begin <= |value| + 1
      invariant Tokens(value) == seen + TokensFrom(value, begin)
      invariant "" !in seen && tokens' == tokens + |seen| && chunked' == (chunked && AllChunked(seen))
    {
      var end := Until(value, begin, ",");
      var token := TrimOws(value[begin..end]);
      TokensUnfold(value, begin);
      OneMore(seen, token, TokensFrom(value, end + 1));
      if token == "" {
        assert Tokens(value)[|seen|] == "";
        return false, tokens', chunked';
      }
      tokens' := tokens' + 1;
      if !IEquals(token, "chunked") {
        chunked' := false;
      }
      AllChunkedAppend(seen, token);
      seen := seen + [token];
      begin := end + 1;
    }
    TokensEnd(value, begin);
    assert seen + [] == seen;
    ok := true;
  }

  lemma AllChunkedConcat(a: seq<string>, b: seq<string>)
    ensures AllChunked(a + b) == (AllChunked(a) && AllChunked(b))
  {
    hide IEquals;
    var all := a + b;
    assert forall i :: 0 <= i < |a| ==> all[i] == a[i];
    assert forall i :: 0 <= i < |b| ==> b[i] == all[|a| + i];
  }

  lemma OneName(f: Field)
    requires Named(f, "Content-Length")
    ensures !Named(f, "Transfer-Encoding")
  {
  }

  method AnalyzeFraming(headers: Headers) returns (r: Result<FramingInfo>)
    ensures r == FramingOf(headers)
  {
    hide HasToken, Tokens, Number, IEquals;
    var f := FramingInfo(0, 0, 0, 0, true, false);
    var i := 0;
    while i < |headers|
      invariant i <= |headers| && f == InfoUpTo(headers, i) && FirstError(headers, i) == FirstError(headers, 0)
    {
      var field := headers[i];
      var close := false;
      if Named(field, "Connection") {
        close := ContainsToken(field.value, "close");
      }
      if close {
        f := f.(closeRequested := true);
      }
      assert f.closeRequested == ClosesUpTo(headers, i + 1);
      if Named(field, "Content-Length") {
        OneName(field);
        f := f.(lengthCount := f.lengthCount + 1);
        var length := FromChars(field.value, 10);
        if length.None? {
          return Err(InvalidContentLength);
        }
        f := f.(length := length.value);
      } else if Named(field, "Transfer-Encoding") {
        f := f.(codingFields := f.codingFields + 1);
        var ok, tokens, chunked := CountCodings(field.value, f.codingTokens, f.codingIsChunked);
        if !ok {
          return Err(MalformedResponse);
        }
        AllChunkedConcat(CodingsUpTo(headers, i), Tokens(field.value));
        f := f.(codingTokens := tokens, codingIsChunked := chunked);
      }
      i := i + 1;
    }
    if f.lengthCount > 1 {
      return Err(InvalidContentLength);
    }
    return Ok(f);
  }

  // ---------- The decision ----------

  datatype Decision =
    | Reject(error: ErrorCode)
    | Interim
    | NoBody
    | Fixed(length: nat)
    | ChunkedCoding
    | UntilClose

  predicate IsInterim(status: nat) { 100 <= status < 200 && status != 101 }

  predicate IsHeaderTerminated(m: Method, status: nat) { m == Head || status == 101 || status == 204 || status == 304 }

  /** Section 6.3 of RFC 9112, from the request method, the status and the header list alone. */
  function Decide(m: Method, lim: ResponseLimits, status: nat, headers: Headers): Decision {
    match FramingOf(headers)
    case Err(e) => Reject(e)
    case Ok(_) =>
      var lengths, codings := Lengths(headers), Codings(headers);
      var framed := lengths != [] || codings != [];
      if IsInterim(status) then (if framed then Reject(MalformedResponse) else Interim)
      else if lengths != [] && codings != [] then Reject(ConflictingMessageFraming)
      else if (status == 101 || status == 204) && framed then Reject(MalformedResponse)
      else if IsHeaderTerminated(m, status) then NoBody
      else if codings != [] then
        (if |codings| == 1 && IEquals(codings[0], "chunked") then ChunkedCoding else Reject(MalformedResponse))
      else if lengths != [] then
        var n := Number(lengths[0], 10).GetOr(0);
        if status == 205 && n != 0 then Reject(InvalidContentLength)
        else if n > lim.maxBody then Reject(ResponseLimitExceeded)
        else if n == 0 then NoBody
        else Fixed(n)
      else UntilClose
  }

  lemma {:induction false} CodingsCounted(headers: Headers, n: nat)
    requires n <= |headers|
    ensures CodingFieldsUpTo(headers, n) == 0 <==> CodingsUpTo(headers, n) == []
  {
    hide IEquals;
    if n > 0 {
      CodingsCounted(headers, n - 1);
    }
  }
}
