/** Request printing (src/http/request_serializer.cpp): percent encoding, the two query appends, and
 the request head. */
module Serializer {
  import opened Results
  import opened Text
  import opened Heads
  import opened Urls
  import opened UrlProofs

  datatype Param = Param(name: string, value: string)

  datatype Request = Request(verb: Method, url: string, headers: Headers, body: string, params: seq<Param>)

  function MethodToken(m: Method): string {
    match m
    case Get => "GET"
    case Head => "HEAD"
    case Post => "POST"
    case Put => "PUT"
    case Patch => "PATCH"
    case Delete => "DELETE"
  }

  predicate HasContentSemantics(m: Method) { m == Post || m == Put || m == Patch }

  // ---------- Percent encoding ----------

  const HEX := "0123456789ABCDEF"

  predicate IsUnreserved(c: char) {
    IsDigit(c) || IsAlpha(c) || c == '-' || c == '.' || c == '_' || c == '~'
  }

  function Escape(c: char): string {
    if IsUnreserved(c) then [c] else ['%', HEX[c as int / 16 % 16], HEX[c as int % 16]]
  }

  /** The first `n` bytes, each as itself or as an escape. */
  function EncodedUpTo(s: string, n: nat): string
    requires n <= |s|
  {
    if n == 0 then "" else EncodedUpTo(s, n - 1) + Escape(s[n - 1])
  }

  function Encoded(s: string): string { EncodedUpTo(s, |s|) }

  lemma EscapeByParts(before: string, byte: nat)
    ensures before + ['%', HEX[byte / 16 % 16], HEX[byte % 16]]
            == before + ['%'] + [HEX[byte / 16 % 16]] + [HEX[byte % 16]]
  {
  }

  method AppendPercentEncoded(output: string, input: string) returns (output': string)
    ensures output' == output + Encoded(input)
  {
    hide IsUnreserved;
    output' := output;
    assert output + "" == output;
    for i := 0 to |input|
      invariant output' == output + EncodedUpTo(input, i)
    {
      Regroup(output, EncodedUpTo(input, i), Escape(input[i]));
      var byte := input[i] as int;
      if IsUnreserved(input[i]) {
        output' := output' + [input[i]];
        continue;
      }
      EscapeByParts(output', byte);
      output' := output' + ['%'];
      output' := output' + [HEX[byte / 16 % 16]];
      output' := output' + [HEX[byte % 16]];
    }
  }

  // ---------- Query parameters ----------

  function Pair(p: Param): string { Encoded(p.name) + ("=" + Encoded(p.value)) }

  function Pairs(params: seq<Param>): seq<string> {
    seq(|params|, i requires 0 <= i < |params| => Pair(params[i]))
  }

  /** What goes between a text and the pairs appended to it. */
  function Separator(text: string): string {
    if Lacks(text, '?') then "?"
    else if text[|text| - 1] != '?' && text[|text| - 1] != '&' then "&"
    else ""
  }

  function Appended(text: string, params: seq<Param>): string {
    if params == [] then "" else Separator(text) + Join(Pairs(params), '&')
  }

  function WithQueryParams(text: string, params: seq<Param>): string { text + Appended(text, params) }

  lemma FoundIsNotLacking(s: string)
    ensures FindChar(s, '?') >= 0 <==> !Lacks(s, '?')
    ensures s[..|s|] == s
  {
    FindCharRun(s, '?');
  }

  lemma OnePair(start: string, p: Param, after: string)
    requires after == start + Encoded(p.name) + "=" + Encoded(p.value)
    ensures after == start + Pair(p)
  {
    hide Encoded;
    Regroup(start, Encoded(p.name), "=");
    Regroup(start, Encoded(p.name) + "=", Encoded(p.value));
    Regroup(Encoded(p.name), "=", Encoded(p.value));
  }

  lemma PairsStep(params: seq<Param>, index: nat)
    requires index < |params|
    ensures Pairs(params)[..index + 1] == Pairs(params)[..index] + [Pair(params[index])]
  {
    hide Pair;
  }

  method AppendQueryParams(output: string, params: seq<Param>) returns (output': string)
    ensures output' == WithQueryParams(output, params)
  {
    hide Join, Encoded, Lacks;
    output' := output;
    assert output + "" == output;
    if params == [] {
      return;
    }
    FindCharRun(output, '?');
    FoundIsNotLacking(output);
    var hasQuery := FindChar(output, '?') >= 0;
    if !hasQuery {
      output' := output' + "?";
    } else if output' != "" && output'[|output'| - 1] != '?' && output'[|output'| - 1] != '&' {
      output' := output' + "&";
    }
    ghost var begin := output';
    assert begin == output + Separator(output);
    JoinFew([], '&');
    assert begin + "" == begin;
    for index := 0 to |params|
      invariant output' == begin + Join(Pairs(params)[..index], '&')
    {
      ghost var before := output';
      if index != 0 {
        output' := output' + "&";
      }
      ghost var start := output';
      output' := AppendPercentEncoded(output', params[index].name);
      output' := output' + "=";
      output' := AppendPercentEncoded(output', params[index].value);
      OnePair(start, params[index], output');
      PairsStep(params, index);
      JoinedSoFar(begin, before, Pairs(params)[..index], Pair(params[index]), output', '&');
    }
    assert Pairs(params)[..|params|] == Pairs(params);
    Regroup(output, Separator(output), Join(Pairs(params), '&'));
  }

  function EffectiveUrl(r: Request): string { WithQueryParams(BeforeFragment(r.url), r.params) }

  method EffectiveRequestUrl(request: Request) returns (result: string)
    ensures result == EffectiveUrl(request)
  {
    hide Until, Appended;
    var fragment := FindChar(request.url, '#');
    FragmentCut(request.url);
    var withoutFragment := if fragment < 0 then request.url else request.url[..fragment];
    result := AppendQueryParams(withoutFragment, request.params);
  }

  // ---------- Validation ----------

  /** What is wrong with one request field, if anything. */
  function FieldProblem(f: Field): Option<ErrorCode> {
    if !IsToken(f.name) || !IsFieldText(f.value) then Some(InvalidHeader)
    else if Named(f, "Host") then (if f.value == "" then Some(InvalidHeader) else None)
    else if Named(f, "Content-Length") then (if Number(f.value, 10).None? then Some(InvalidContentLength) else None)
    else if Named(f, "Transfer-Encoding") then Some(ConflictingMessageFraming)
    else None
  }

  function FirstProblem(headers: Headers, n: nat): Option<ErrorCode>
    requires n <= |headers|
    decreases |headers| - n
  {
    if n == |headers| then None
    else if FieldProblem(headers[n]).Some? then FieldProblem(headers[n])
    else FirstProblem(headers, n + 1)
  }

  /** The last of `lengths`, as a number. */
  function LastNumber(lengths: seq<string>): nat {
    if lengths == [] then 0 else Number(lengths[|lengths| - 1], 10).GetOr(0)
  }

  function Problem(r: Request): Option<ErrorCode> {
    var lengths := Values(r.headers, "Content-Length");
    if FirstProblem(r.headers, 0).Some? then FirstProblem(r.headers, 0)
    else if |Values(r.headers, "Host")| > 1 then Some(InvalidHeader)
    else if |lengths| > 1 then Some(InvalidContentLength)
    else if |lengths| == 1 && LastNumber(lengths) != |r.body| then Some(InvalidContentLength)
    else None
  }

  // ---------- The head ----------

  function WireHost(r: Request, parts: Parts): Headers {
    if Values(r.headers, "Host") == [] then [Field("Host", HostPort(parts))] else []
  }

  function WireLength(r: Request): Headers {
    if Values(r.headers, "Content-Length") == [] && (r.body != "" || HasContentSemantics(r.verb))
    then [Field("Content-Length", Numeral(|r.body|, 10))] else []
  }

  /** The fields that go on the wire: a Host first if none is given, a Content-Length last if one is needed. */
  function WireFields(r: Request, parts: Parts): Headers {
    WireHost(r, parts) + (r.headers + WireLength(r))
  }

  function RequestLine(m: Method, target: string): string { MethodToken(m) + (" " + (target + " HTTP/1.1")) }

  function FieldLine(f: Field): string { f.name + (": " + f.value) }

  function FieldLines(headers: Headers): seq<string> {
    seq(|headers|, i requires 0 <= i < |headers| => FieldLine(headers[i]))
  }

  function HeadLines(r: Request, parts: Parts): seq<string> {
    [RequestLine(r.verb, WithQueryParams(parts.Target(), r.params))] + FieldLines(WireFields(r, parts))
  }

  datatype Wire = Wire(parts: Parts, head: string, body: string) {
    function Bytes(): string { head + body }
  }

  function Serialized(r: Request): Result<Wire> {
    var parts :- ParseUrl(r.url);
    if Problem(r).Some? then Err(Problem(r).value)
    else Ok(Wire(parts, LinesThen(HeadLines(r, parts), CRLF), r.body))
  }

  datatype SerializedRequest = SerializedRequest(url: Url, head: string, body: string)

  lemma NamesDiffer(f: Field)
    ensures Named(f, "Host") ==> !Named(f, "Content-Length") && !Named(f, "Transfer-Encoding")
    ensures Named(f, "Content-Length") ==> !Named(f, "Transfer-Encoding")
  {
  }

  /** The validation loop over the fields, and the checks on its counters. */
  method CheckFields(request: Request) returns (problem: Option<ErrorCode>, hostCount: nat, contentLengthCount: nat)
    ensures problem == Problem(request)
    ensures problem == None ==>
            hostCount == |Values(request.headers, "Host")| &&
              contentLengthCount == |Values(request.headers, "Content-Length")|
  {
    hide Named, Number, IsToken, IsFieldText;
    hostCount, contentLengthCount := 0, 0;
    var declared := 0;
    var headers := request.headers;
    for i := 0 to |headers|
      invariant FirstProblem(headers, i) == FirstProblem(headers, 0)
      invariant hostCount == |ValuesUpTo(headers, i, "Host")|
      invariant contentLengthCount == |ValuesUpTo(headers, i, "Content-Length")|
      invariant declared == LastNumber(ValuesUpTo(headers, i, "Content-Length"))
    {
      var field := headers[i];
      NamesDiffer(field);
      if !IsToken(field.name) || !IsFieldText(field.value) {
        return Some(InvalidHeader), hostCount, contentLengthCount;
      }
      if Named(field, "Host") {
        hostCount := hostCount + 1;
        if field.value == "" {
          return Some(InvalidHeader), hostCount, contentLengthCount;
        }
      } else if Named(field, "Content-Length") {
        contentLengthCount := contentLengthCount + 1;
        var parsed := FromChars(field.value, 10);
        if parsed.None? {
          return Some(InvalidContentLength), hostCount, contentLengthCount;
        }
        declared := parsed.value;
      } else if Named(field, "Transfer-Encoding") {
        return Some(ConflictingMessageFraming), hostCount, contentLengthCount;
      }
    }
    if hostCount > 1 {
      return Some(InvalidHeader), hostCount, contentLengthCount;
    }
    if contentLengthCount > 1 {
      return Some(InvalidContentLength), hostCount, contentLengthCount;
    }
    if contentLengthCount == 1 && declared != |request.body| {
      return Some(InvalidContentLength), hostCount, contentLengthCount;
    }
    problem := None;
  }

  lemma HostRegroup(a: string, b: string, c: string, d: string, e: string, f: string)
    ensures a + b + c + d + e + f == a + ((b + (c + (d + e))) + f)
  {
    Regroup(a, b, c);
    Regroup(a, b + c, d);
    Regroup(a, b + c + d, e);
    Regroup(a, b + c + d + e, f);
    Regroup(b, c, d);
    Regroup(b, c + d, e);
    Regroup(c, d, e);
  }

  lemma HostLine(head: string, parts: Parts, host: string)
    requires host == if parts.ipv6 then "[" + parts.host + "]" else parts.host
    ensures head + "Host: " + host + (if parts.explicitPort then ":" else "")
            + (if parts.explicitPort then Numeral(parts.port, 10) else "") + CRLF
            == head + (FieldLine(Field("Host", HostPort(parts))) + CRLF)
    ensures head + "Host: " + host + "" == head + "Host: " + host
    ensures head + "Host: " + "[" + parts.host + "]" == head + "Host: " + ("[" + parts.host + "]")
  {
    hide Numeral;
    var colon := if parts.explicitPort then ":" else "";
    var digits := if parts.explicitPort then Numeral(parts.port, 10) else "";
    assert "Host: " == "Host" + ": ";
    assert colon + digits == if parts.explicitPort then ":" + Numeral(parts.port, 10) else "";
    Regroup("Host", ": ", host + (colon + digits));
    HostRegroup(head, "Host: ", host, colon, digits, CRLF);
    Regroup(head + "Host: ", "[", parts.host);
    Regroup(head + "Host: ", "[" + parts.host, "]");
  }

  method AppendGeneratedHost(head: string, url: Url, ghost parts: Parts) returns (head': string)
    requires url.Represents(parts)
    ensures head' == head + (FieldLine(Field("Host", HostPort(parts))) + CRLF)
  {
    hide Numeral, HostPort, FieldLine;
    ghost var host := if parts.ipv6 then "[" + parts.host + "]" else parts.host;
    head' := head + "Host: ";
    if url.hostIsIpv6Literal {
      head' := head' + "[";
      head' := head' + url.Host();
      head' := head' + "]";
    } else {
      head' := head' + url.Host();
    }
    HostLine(head, parts, host);
    if url.hasExplicitPort {
      var digits := ToChars(url.port);
      head' := head' + ":";
      head' := head' + digits;
    }
    head' := head' + CRLF;
  }

  lemma {:induction false} LinesThenAppend(lines: seq<string>, one: string)
    ensures LinesThen(lines + [one], "") == LinesThen(lines, "") + (one + CRLF)
  {
    if lines == [] {
      assert lines + [one] == [one];
      assert CRLF + "" == CRLF && "" + (one + CRLF) == one + CRLF;
      assert LinesThen([one][1..], "") == "";
    } else {
      assert (lines + [one])[1..] == lines[1..] + [one];
      LinesThenAppend(lines[1..], one);
      var rest := LinesThen(lines[1..], "");
      Regroup(CRLF, rest, one + CRLF);
      Regroup(lines[0], CRLF + rest, one + CRLF);
    }
  }

  /** The loop that prints the given fields. */
  method AppendFields(head: string, headers: Headers) returns (head': string)
    ensures head' == head + LinesThen(FieldLines(headers), "")
  {
    head' := head;
    assert head + "" == head;
    for i := 0 to |headers|
      invariant head' == head + LinesThen(FieldLines(headers)[..i], "")
    {
      ghost var before := head';
      head' := head' + headers[i].name;
      head' := head' + ": ";
      head' := head' + headers[i].value;
      head' := head' + CRLF;
      assert head' == before + (FieldLine(headers[i]) + CRLF);
      assert FieldLines(headers)[..i + 1] == FieldLines(headers)[..i] + [FieldLine(headers[i])];
      LinesThenAppend(FieldLines(headers)[..i], FieldLine(headers[i]));
      Regroup(head, LinesThen(FieldLines(headers)[..i], ""), FieldLine(headers[i]) + CRLF);
    }
    assert FieldLines(headers)[..|headers|] == FieldLines(headers);
  }

  lemma {:induction false} LinesThenConcat(a: seq<string>, b: seq<string>)
    ensures LinesThen(a + b, "") == LinesThen(a, "") + LinesThen(b, "")
  {
    if a == [] {
      assert a + b == b;
    } else {
      assert (a + b)[1..] == a[1..] + b;
      LinesThenConcat(a[1..], b);
      var rest := LinesThen(a[1..], "");
      Regroup(CRLF, rest, LinesThen(b, ""));
      Regroup(a[0], CRLF + rest, LinesThen(b, ""));
    }
  }

  lemma OneLine(line: string)
    ensures LinesThen([line], "") == line + CRLF
  {
    assert CRLF + "" == CRLF && LinesThen([line][1..], "") == "";
  }

  lemma RequestLineText(verb: string, target: string)
    ensures verb + " " + target + " HTTP/1.1\r\n" == verb + (" " + (target + " HTTP/1.1")) + CRLF
  {
    assert " HTTP/1.1\r\n" == " HTTP/1.1" + CRLF;
    Regroup(verb, " ", target);
    Regroup(verb, " " + target, " HTTP/1.1" + CRLF);
    Regroup(" " + target, " HTTP/1.1", CRLF);
    Regroup(" ", target, " HTTP/1.1");
    Regroup(verb, " " + (target + " HTTP/1.1"), CRLF);
  }

  lemma LengthText(before: string, digits: string)
    ensures before + "Content-Length: " + digits + CRLF == before + (FieldLine(Field("Content-Length", digits)) + CRLF)
  {
    var all := before + "Content-Length: " + digits + CRLF;
    assert "Content-Length: " == "Content-Length" + ": ";
    Regroup("Content-Length", ": ", digits);
    Regroup(before, "Content-Length: ", digits);
    Regroup(before, "Content-Length: " + digits, CRLF);
  }

  lemma NoLines(before: string)
    ensures before + LinesThen(FieldLines([]), "") == before
  {
    assert before + "" == before;
  }

  lemma OneField(f: Field)
    ensures LinesThen(FieldLines([f]), "") == FieldLine(f) + CRLF
  {
    assert FieldLines([f]) == [FieldLine(f)];
    OneLine(FieldLine(f));
  }

  lemma HeadRegroup(a: string, b: string, c: string, d: string)
    ensures a + b + c + d + CRLF == a + (b + (c + d)) + CRLF
  {
    Regroup(a, b, c);
    Regroup(a, b + c, d);
    Regroup(b, c, d);
  }

  lemma FieldLinesConcat(a: Headers, b: Headers)
    ensures FieldLines(a + b) == FieldLines(a) + FieldLines(b)
  {
    hide FieldLine;
  }

  lemma Assembled(line: string, a: Headers, b: Headers, c: Headers)
    ensures LinesThen([line] + FieldLines(a + (b + c)), CRLF)
            == line + CRLF
              + (LinesThen(FieldLines(a), "") + (LinesThen(FieldLines(b), "") + LinesThen(FieldLines(c), ""))) + CRLF
  {
    hide FieldLines, LinesThen;
    FieldLinesConcat(a, b + c);
    FieldLinesConcat(b, c);
    LinesThenConcat([line], FieldLines(a + (b + c)));
    LinesThenConcat(FieldLines(a), FieldLines(b + c));
    LinesThenConcat(FieldLines(b), FieldLines(c));
    OneLine(line);
    LinesThenGlue([line] + FieldLines(a + (b + c)), "", CRLF);
    assert "" + CRLF == CRLF;
  }

  lemma HeadPieces(r: Request, parts: Parts)
    ensures HeadLines(r, parts)
            == [RequestLine(r.verb, WithQueryParams(parts.Target(), r.params))]
              + FieldLines(WireHost(r, parts) + (r.headers + WireLength(r)))
  {
  }

  /** The head, from the counts the validation left. */
  method WriteHead(request: Request, url: Url, target: string, hostCount: nat, contentLengthCount: nat,
                   ghost parts: Parts)
    returns (head: string)
    requires url.Represents(parts) && target == WithQueryParams(parts.Target(), request.params)
    requires hostCount == |Values(request.headers, "Host")| &&
             contentLengthCount == |Values(request.headers, "Content-Length")|
    ensures head == LinesThen(HeadLines(request, parts), CRLF)
  {
    hide Values, Numeral, Url.Represents, HostPort, LinesThen, WithQueryParams, FieldLines, FieldLine, HeadLines;
    head := MethodToken(request.verb);
    head := head + " ";
    head := head + target;
    head := head + " HTTP/1.1\r\n";
    RequestLineText(MethodToken(request.verb), target);
    ghost var first := head;
    ghost var hosts, lengths := WireHost(request, parts), WireLength(request);
    NoLines(first);
    if hostCount == 0 {
      OneLine(FieldLine(Field("Host", HostPort(parts))));
      head := AppendGeneratedHost(head, url, parts);
    }
    assert head == first + LinesThen(FieldLines(hosts), "") by { OneField(Field("Host", HostPort(parts))); }
    ghost var second := head;
    head := AppendFields(head, request.headers);
    ghost var third := head;
    NoLines(third);
    if contentLengthCount == 0 && (request.body != "" || HasContentSemantics(request.verb)) {
      head := head + "Content-Length: ";
      var length := ToChars(|request.body|);
      head := head + length;
      head := head + CRLF;
      LengthText(third, length);
      OneField(Field("Content-Length", length));
    }
    assert head == third + LinesThen(FieldLines(lengths), "");
    head := head + CRLF;
    Assembled(RequestLine(request.verb, target), hosts, request.headers, lengths);
    HeadPieces(request, parts);
    HeadRegroup(RequestLine(request.verb, target) + CRLF, LinesThen(FieldLines(hosts), ""),
                LinesThen(FieldLines(request.headers), ""), LinesThen(FieldLines(lengths), ""));
  }

  method SerializeRequest(request: Request) returns (r: Result<SerializedRequest>)
    ensures match Serialized(request)
            case Err(e) => r == Err(e)
            case Ok(wire) =>
              && r.Ok? && r.value.url.Represents(wire.parts)
              && r.value.head == wire.head && r.value.body == wire.body
  {
    hide ParseUrl, Problem, Values, HeadLines, LinesThen, WithQueryParams, Url.Scheme, Url.Host, Url.Path, Url.Query,
         Url.Target;
    var parsed := Parse(request.url);
    if parsed.Err? {
      return Err(parsed.error);
    }
    var url := parsed.value;
    ghost var parts := ParseUrl(request.url).value;
    var problem, hostCount, contentLengthCount := CheckFields(request);
    if problem.Some? {
      return Err(problem.value);
    }
    var target := AppendQueryParams(url.Target(), request.params);
    var head := WriteHead(request, url, target, hostCount, contentLengthCount, parts);
    r := Ok(SerializedRequest(url, head, request.body));
  }
}
