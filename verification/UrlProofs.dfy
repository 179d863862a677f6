/** The URLs the parser produces, and that printing one canonically and parsing it gives it back. */
module UrlProofs {
  import opened Results
  import opened Text
  import opened Urls

  // ---------- The image of the parser ----------

  predicate UrlChar(c: char) { !IsForbidden(c) && c != '#' }

  predicate AllUrlChars(s: string) { forall i :: 0 <= i < |s| ==> UrlChar(s[i]) }

  predicate HostChar(c: char) { UrlChar(c) && c != '/' && c != '?' && c != '@' && c != '%' }

  predicate AllHostChars(s: string) { forall i :: 0 <= i < |s| ==> HostChar(s[i]) }

  predicate ValidAuthority(host: string, port: nat, explicitPort: bool, ipv6: bool) {
    && AllHostChars(host) && host != ""
    && (if ipv6 then IsIpv6Literal(host) && Lacks(host, ']') else host[0] != '[' && Lacks(host, ':'))
    && (if explicitPort then 1 <= port <= 0xffff else port == 80)
  }

  predicate ValidParts(p: Parts) {
    && ValidAuthority(p.host, p.port, p.explicitPort, p.ipv6)
    && p.path != "" && p.path[0] == '/' && AllUrlChars(p.path) && Lacks(p.path, '?')
    && (p.query.Some? ==> AllUrlChars(p.query.value))
    && EscapesFrom(p.Target(), 0)
  }

  /** host and port as they are written in a URL and in a Host field. */
  function HostPort(p: Parts): string {
    (if p.ipv6 then "[" + p.host + "]" else p.host) + if p.explicitPort then ":" + Numeral(p.port, 10) else ""
  }

  function Origin(p: Parts): string { "http://" + HostPort(p) }

  /** The URL a redirect from `p` builds on. */
  function Canonical(p: Parts): string { Origin(p) + p.Target() }

  // ---------- Every parse is valid ----------

  lemma AuthorityChars(a: string)
    requires AllUrlChars(a) && (forall i :: 0 <= i < |a| ==> a[i] != '/' && a[i] != '?') && Lacks(a, '@') &&
             Lacks(a, '%')
    ensures AllHostChars(a)
  {
    hide IsForbidden;
  }

  lemma InnerPart(a: string, closing: nat)
    requires 0 < closing < |a| && AllHostChars(a) && Lacks(a[..closing], ']')
    ensures AllHostChars(a[1..closing]) && Lacks(a[1..closing], ']')
  {
    hide HostChar;
    var inner, front := a[1..closing], a[..closing];
    assert forall i :: 0 <= i < |inner| ==> inner[i] == front[i + 1];
    assert forall i :: 0 <= i < |front| ==> front[i] == a[i];
  }

  lemma PortInRange(rest: string)
    ensures rest != "" && PortOf(rest[1..]).Ok? ==> 1 <= PortOf(rest[1..]).value <= 0xffff
  {
    hide Number;
  }

  lemma AuthorityValid(a: string)
    requires a != "" && AllUrlChars(a) && (forall i :: 0 <= i < |a| ==> a[i] != '/' && a[i] != '?') &&
             ParseAuthority(a).Ok?
    ensures var r := ParseAuthority(a).value; ValidAuthority(r.host, r.port, r.explicitPort, r.ipv6)
  {
    hide IsIpv6Literal, HostChar, FindChar, PortOf;
    assert AllHostChars(a) by { AuthorityChars(a); }
    FindCharRun(a, ']');
    FindCharRun(a, ':');
    if a[0] == '[' {
      var closing := FindChar(a, ']');
      InnerPart(a, closing);
      PortInRange(a[closing + 1..]);
    } else if FindChar(a, ':') >= 0 {
      PortInRange(a[FindChar(a, ':')..]);
    }
  }

  lemma TargetValid(tail: string)
    requires AllUrlChars(tail) && (tail == "" || tail[0] == '/' || tail[0] == '?')
    ensures AllUrlChars(TargetOf(tail)) && TargetOf(tail) != "" && TargetOf(tail)[0] == '/'
  {
  }

  lemma WithTargetValid(a: Authority, target: string)
    requires AllUrlChars(target) && target != "" && target[0] == '/'
    ensures var p := WithTarget(a, target);
            && p.Target() == target && p.path != "" && p.path[0] == '/' && AllUrlChars(p.path) && Lacks(p.path, '?')
            && (p.query.Some? ==> AllUrlChars(p.query.value))
  {
    hide IsForbidden, Until;
    var mark := Until(target, 0, "?");
    UntilRun(target, 0, "?");
    TargetPieces(target, 0, mark);
    assert target[0] !in "?" && target[0..] == target;
  }

  lemma WithTargetKeeps(a: Authority, target: string)
    ensures var p := WithTarget(a, target);
            p.host == a.host && p.port == a.port && p.explicitPort == a.explicitPort && p.ipv6 == a.ipv6
  {
  }

  lemma RestValid(rest: string)
    requires AllUrlChars(rest) && ParseRest(rest).Ok?
    ensures ValidParts(ParseRest(rest).value)
  {
    hide ParseAuthority, Until, EscapesFrom, IsForbidden, WithTarget, ValidAuthority;
    var end := Until(rest, 0, "/?");
    UntilRun(rest, 0, "/?");
    var a, tail := rest[..end], rest[end..];
    AuthorityValid(a);
    TargetValid(tail);
    WithTargetValid(ParseAuthority(a).value, TargetOf(tail));
    assert WithTarget(ParseAuthority(a).value, TargetOf(tail)).host
           == ParseAuthority(a).value.host by { WithTargetKeeps(ParseAuthority(a).value, TargetOf(tail)); }
    WithTargetKeeps(ParseAuthority(a).value, TargetOf(tail));
  }

  lemma FragmentGone(s: string)
    requires !HasForbidden(s)
    ensures AllUrlChars(BeforeFragment(s))
  {
    hide Until;
    UntilRun(s, 0, "#");
  }

  /** Every successful parse is a valid URL. */
  lemma ParseValid(input: string)
    requires ParseUrl(input).Ok?
    ensures ValidParts(ParseUrl(input).value)
  {
    hide Find, ParseRest, IsForbidden, Until;
    var rest := input[Find(input, "://") + 3..];
    assert forall i :: 0 <= i < |rest| ==> rest[i] == input[|input| - |rest| + i];
    FragmentGone(rest);
    RestValid(BeforeFragment(rest));
  }

  // ---------- Printing and parsing ----------

  lemma SchemeLetters(head: string)
    requires |head| == 7 && IEquals(head[..4], "http") && head[4..] == "://"
    ensures forall i :: 0 <= i < 7 ==> !IsForbidden(head[i])
    ensures forall i :: 0 <= i < 4 ==> head[i] != ':' && head[i] != '#'
  {
    var scheme := head[..4];
    assert forall i :: 0 <= i < 4 ==> head[i] == scheme[i] && Lower(scheme[i]) == Lower("http"[i]);
    assert head[4] == head[4..][0] && head[5] == head[4..][1] && head[6] == head[4..][2];
  }

  /** A text that starts with the scheme parses as what follows it. */
  lemma ParseAfterScheme(head: string, rest: string)
    requires |head| == 7 && IEquals(head[..4], "http") && head[4..] == "://" && AllUrlChars(rest)
    ensures ParseUrl(head + rest) == ParseRest(rest)
  {
    hide Find, ParseRest, Until;
    var s := head + rest;
    SchemeLetters(head);
    assert forall i :: 0 <= i < 7 ==> s[i] == head[i];
    assert forall i :: 0 <= i < |rest| ==> s[7 + i] == rest[i];
    assert s[4] == head[4..][0] && s[5] == head[4..][1] && s[6] == head[4..][2];
    forall j | 0 <= j < 4 ensures !At(s, "://", j) {
      AtStart(s, "://", j);
    }
    FindIs(s, "://", 4);
    forall i | 0 <= i < |s| ensures !IsForbidden(s[i]) {
      if i >= 7 {
        assert UrlChar(rest[i - 7]);
      }
    }
    assert s[..4] == head[..4] && s[7..] == rest;
    UntilIs(rest, 0, "#", |rest|);
    assert rest[..|rest|] == rest;
  }

  lemma PortPrinted(port: nat)
    requires 1 <= port <= 0xffff
    ensures PortOf(Numeral(port, 10)) == Ok(port)
    ensures AllHostChars(Numeral(port, 10)) && Lacks(Numeral(port, 10), ':')
  {
    NumeralRoundTrip(port, 10);
    NumeralDenotes(port, 10);
    var s := Numeral(port, 10);
    forall i | 0 <= i < |s| ensures HostChar(s[i]) && s[i] != ':' {
      assert IsDigit(s[i]);
    }
  }

  lemma HostPortChars(p: Parts)
    requires ValidAuthority(p.host, p.port, p.explicitPort, p.ipv6)
    ensures HostPort(p) != "" && AllHostChars(HostPort(p))
  {
    hide Numeral, IsIpv6Literal;
    if p.explicitPort {
      PortPrinted(p.port);
    }
  }

  lemma LiteralParses(p: Parts, tail: string)
    requires ValidAuthority(p.host, p.port, p.explicitPort, p.ipv6) && p.ipv6 && AllHostChars("[" + p.host + "]" + tail)
    requires if p.explicitPort then tail != "" && tail[0] == ':' && PortOf(tail[1..]) == Ok(p.port) else tail == ""
    ensures ParseAuthority("[" + p.host + "]" + tail) == Ok(Authority(p.host, p.port, p.explicitPort, true))
  {
    hide IsIpv6Literal, FindChar, PortOf;
    var a := "[" + p.host + "]" + tail;
    var open := "[" + p.host;
    assert Lacks(open, ']');
    FindCharAt(open, ']', tail);
    assert a == open + ("]" + tail);
    assert a[1..|open|] == p.host && a[|open| + 1..] == tail;
    if tail != "" {
      CutSum(a, |open| + 1, 1);
      assert a[|open| + 1] == tail[0];
    }
  }

  lemma NameParses(p: Parts, port: string)
    requires ValidAuthority(p.host, p.port, p.explicitPort, p.ipv6) && !p.ipv6
    requires if p.explicitPort then PortOf(port) == Ok(p.port) && Lacks(port, ':') && AllHostChars(port) else port == ""
    ensures var a := p.host + if p.explicitPort then ":" + port else "";
            ParseAuthority(a) == Ok(Authority(p.host, p.port, p.explicitPort, false))
  {
    hide FindChar, PortOf;
    if p.explicitPort {
      var a := p.host + (":" + port);
      FindCharAt(p.host, ':', port);
      assert a[..|p.host|] == p.host && a[|p.host| + 1..] == port;
      assert forall i :: 0 <= i < |a| ==>
             a[i] == (if i < |p.host| then p.host[i] else if i == |p.host| then ':' else port[i - |p.host| - 1]);
      assert Lacks(a, '@') && Lacks(a, '%');
    } else {
      assert p.host + "" == p.host;
      FindCharNone(p.host, ':');
    }
  }

  lemma HostPortParses(p: Parts)
    requires ValidAuthority(p.host, p.port, p.explicitPort, p.ipv6)
    ensures HostPort(p) != "" && ParseAuthority(HostPort(p)) == Ok(Authority(p.host, p.port, p.explicitPort, p.ipv6))
  {
    hide Numeral, IsIpv6Literal, FindChar, PortOf;
    HostPortChars(p);
    if p.explicitPort {
      PortPrinted(p.port);
    }
    if p.ipv6 {
      LiteralParses(p, if p.explicitPort then ":" + Numeral(p.port, 10) else "");
    } else {
      NameParses(p, if p.explicitPort then Numeral(p.port, 10) else "");
    }
  }

  lemma QuestionMark()
    ensures !IsForbidden('?')
  {
  }

  lemma UrlCharsGlue(a: string, b: string)
    ensures AllUrlChars(a) && AllUrlChars(b) ==> AllUrlChars(a + b)
    ensures AllUrlChars("?") && AllUrlChars("")
  {
    hide IsForbidden;
    assert !IsForbidden('?') by { QuestionMark(); }
    var s := a + b;
    assert forall i :: 0 <= i < |s| ==> s[i] == if i < |a| then a[i] else b[i - |a|];
  }

  lemma TargetParses(p: Parts)
    requires ValidParts(p)
    ensures AllUrlChars(p.Target()) && p.Target() != "" && p.Target()[0] == '/'
    ensures WithTarget(Authority(p.host, p.port, p.explicitPort, p.ipv6), p.Target()) == p
  {
    hide EscapesFrom, ValidAuthority, AllUrlChars;
    var tail := if p.query.Some? then "?" + p.query.value else "";
    UntilAt(p.path, tail, "?");
    CutAtSeam(p.path, tail);
    if p.query.Some? {
      CutSum(p.Target(), |p.path|, 1);
      CutAtSeam("?", p.query.value);
      UrlCharsGlue("?", p.query.value);
    }
    UrlCharsGlue(p.path, tail);
    assert p.path + "" == p.path;
  }

  lemma SchemePrinted()
    ensures IEquals("http://"[..4], "http") && "http://"[4..] == "://"
  {
    assert "http://"[..4] == "http";
  }

  /** A target put after the origin of `p` parses to the authority of `p` and that target. */
  lemma OriginPlus(p: Parts, target: string)
    requires ValidAuthority(p.host, p.port, p.explicitPort, p.ipv6)
    requires AllUrlChars(target) && target != "" && target[0] == '/'
    ensures ParseUrl(Origin(p) + target) ==
            if EscapesFrom(target, 0) then Ok(WithTarget(Authority(p.host, p.port, p.explicitPort, p.ipv6), target))
            else Err(InvalidUrl)
  {
    hide ParseAuthority, EscapesFrom, IsForbidden, WithTarget, ValidAuthority, HostPort, Until, ParseUrl;
    var h := HostPort(p);
    HostPortParses(p);
    HostPortChars(p);
    var rest := h + target;
    UntilAt(h, target, "/?");
    CutAtSeam(h, target);
    assert forall i :: 0 <= i < |rest| ==> rest[i] == if i < |h| then h[i] else target[i - |h|];
    Regroup("http://", h, target);
    SchemePrinted();
    ParseAfterScheme("http://", rest);
  }

  /** Canonical round trip: the printed URL parses back to every part. */
  lemma CanonicalRoundTrip(p: Parts)
    requires ValidParts(p)
    ensures ParseUrl(Canonical(p)) == Ok(p)
  {
    hide EscapesFrom, IsForbidden, WithTarget, ValidAuthority, ParseUrl, Origin;
    TargetParses(p);
    OriginPlus(p, p.Target());
  }

  // ---------- The grammar of URLs ----------

  ghost predicate AuthorityParts(text: string, a: Authority, digits: string) {
    && text == (if a.ipv6 then "[" + a.host + "]" else a.host) + (if a.explicitPort then ":" + digits else "")
    && a.host != "" && Lacks(text, '@') && Lacks(text, '%')
    && (if a.ipv6 then IsIpv6Literal(a.host) && Lacks(a.host, ']') else a.host[0] != '[' && Lacks(a.host, ':'))
    && (if a.explicitPort then Number(digits, 10) == Some(a.port) && 1 <= a.port <= 0xffff else a.port == 80)
  }

  /** host, or "[" host "]", and possibly ":" and the digits of a port. */
  ghost predicate IsAuthority(text: string, a: Authority) {
    exists digits: string :: AuthorityParts(text, a, digits)
  }

  /** The texts of a URL: scheme "://" authority, a tail with path and query, and possibly a fragment. */
  datatype UrlText = UrlText(scheme: string, authority: string, tail: string, fragment: Option<string>) {
    function Print(): string {
      scheme + ("://" + (authority + (tail + if fragment.Some? then "#" + fragment.value else "")))
    }
  }

  /** Each '%' has two hexadecimal digits after it. */
  predicate IsEscaped(s: string) {
    forall i :: 0 <= i < |s| && s[i] == '%' ==> i + 2 < |s| && DigitOf(s[i + 1]) >= 0 && DigitOf(s[i + 2]) >= 0
  }

  ghost predicate UrlParts(t: UrlText, a: Authority) {
    && IEquals(t.scheme, "http") && !HasForbidden(t.Print())
    && t.authority != "" && Lacks(t.authority, '/') && Lacks(t.authority, '?') && Lacks(t.authority, '#') &&
       IsAuthority(t.authority, a)
    && (t.tail == "" || t.tail[0] == '/' || t.tail[0] == '?') && Lacks(t.tail, '#') && IsEscaped(t.tail)
  }

  /** A tail is a path, '/' if it has none, and a query if there is a '?'. */
  predicate IsTail(tail: string, path: string, query: Option<string>) {
    && Lacks(path, '?')
    && path + (if query.Some? then "?" + query.value else "") ==
       if tail != "" && tail[0] == '/' then tail else "/" + tail
  }

  ghost predicate IsUrl(t: UrlText, p: Parts) {
    exists a: Authority ::
      && UrlParts(t, a) && IsTail(t.tail, p.path, p.query)
      && p.host == a.host && p.port == a.port && p.explicitPort == a.explicitPort && p.ipv6 == a.ipv6
  }

  lemma PercentIsNoDigit()
    ensures DigitOf('%') < 0
  {
  }

  lemma {:induction false} EscapesExact(s: string, from: nat)
    ensures EscapesFrom(s, from) <==>
            forall i :: from <= i < |s| && s[i] == '%' ==>
              i + 2 < |s| && DigitOf(s[i + 1]) >= 0 && DigitOf(s[i + 2]) >= 0
    decreases |s| - from
  {
    hide DigitOf;
    if from < |s| {
      PercentIsNoDigit();
      if s[from] != '%' {
        EscapesExact(s, from + 1);
      } else if from + 2 < |s| {
        EscapesExact(s, from + 3);
      }
    }
  }

  lemma EscapedRooted(tail: string)
    ensures IsEscaped("/" + tail) <==> IsEscaped(tail)
  {
    hide DigitOf;
    var s := "/" + tail;
    assert forall i :: 0 <= i < |tail| ==> s[i + 1] == tail[i];
    if IsEscaped(s) {
      forall i | 0 <= i < |tail| && tail[i] == '%'
        ensures i + 2 < |tail| && DigitOf(tail[i + 1]) >= 0 && DigitOf(tail[i + 2]) >= 0
      {
        assert s[i + 1] == '%' && s[i + 2] == tail[i + 1] && s[i + 3] == tail[i + 2];
      }
    }
  }

  lemma TargetEscapes(tail: string)
    ensures EscapesFrom(TargetOf(tail), 0) <==> IsEscaped(tail)
  {
    hide EscapesFrom, DigitOf;
    EscapesExact(TargetOf(tail), 0);
    EscapedRooted(tail);
  }

  lemma CutAtMark(s: string, k: nat)
    requires k < |s| && s[k] in "?"
    ensures s == s[..k] + ("?" + s[k + 1..])
  {
    assert s[k..] == [s[k]] + s[k + 1..];
  }

  lemma NoneBefore(s: string)
    ensures Lacks(s[..Until(s, 0, "?")], '?')
  {
    hide Until;
    UntilRun(s, 0, "?");
    assert '?' in "?";
  }

  lemma TargetCuts(target: string)
    ensures var k := Until(target, 0, "?");
            && Lacks(target[..k], '?')
            && target == target[..k] + if k < |target| then "?" + target[k + 1..] else ""
  {
    hide Until, FindChar, Lacks;
    var k := Until(target, 0, "?");
    NoneBefore(target);
    if k < |target| {
      CutAtMark(target, k);
    } else {
      CutWhole(target);
    }
  }

  lemma TailCuts(target: string, path: string, query: Option<string>)
    ensures Lacks(path, '?') && path + (if query.Some? then "?" + query.value else "") == target <==>
            var k := Until(target, 0, "?");
            path == target[..k] && query == if k < |target| then Some(target[k + 1..]) else None
  {
    hide Until;
    TargetCuts(target);
    var tail := if query.Some? then "?" + query.value else "";
    if Lacks(path, '?') && path + tail == target {
      UntilAt(path, tail, "?");
      CutAtSeam(path, tail);
      if query.Some? {
        assert target[|path| + 1..] == query.value;
      }
    }
  }

  lemma TailMeans(tail: string, a: Authority, p: Parts)
    requires tail == "" || tail[0] == '/' || tail[0] == '?'
    ensures EscapesFrom(TargetOf(tail), 0) <==> IsEscaped(tail)
    ensures p == WithTarget(a, TargetOf(tail)) <==>
            && IsTail(tail, p.path, p.query)
            && p.host == a.host && p.port == a.port && p.explicitPort == a.explicitPort && p.ipv6 == a.ipv6
  {
    hide EscapesFrom, DigitOf, Until, IsEscaped, Lacks;
    var target := TargetOf(tail);
    TargetEscapes(tail);
    TailCuts(target, p.path, p.query);
  }

  lemma PortDigits(text: string, n: nat)
    ensures PortOf(text) == Ok(n) <==> Number(text, 10) == Some(n) && 1 <= n <= 0xffff
  {
    hide Number;
  }

  lemma LiteralSplits(text: string, closing: nat)
    requires 0 < closing < |text| && text[0] == '[' && text[closing] == ']' && Lacks(text[..closing], ']')
    ensures Lacks(text[1..closing], ']')
    ensures text == "[" + text[1..closing] + "]" + text[closing + 1..]
    ensures closing + 1 < |text| && text[closing + 1] == ':' ==> text[closing + 1..] == ":" + text[closing + 2..]
  {
    var front, inner := text[..closing], text[1..closing];
    assert forall i :: 0 <= i < |inner| ==> inner[i] == front[i + 1];
  }

  lemma LiteralSound(text: string)
    requires text != "" && text[0] == '[' && Lacks(text, '@') && Lacks(text, '%') && ParseLiteral(text).Ok?
    ensures IsAuthority(text, ParseLiteral(text).value)
  {
    hide FindChar, IsIpv6Literal, PortOf, Number;
    var a := ParseLiteral(text).value;
    FindCharRun(text, ']');
    var closing := FindChar(text, ']');
    LiteralSplits(text, closing);
    if closing + 1 < |text| {
      PortDigits(text[closing + 2..], a.port);
      assert AuthorityParts(text, a, text[closing + 2..]);
    } else {
      assert AuthorityParts(text, a, "");
    }
  }

  lemma NameSound(text: string)
    requires text != "" && text[0] != '[' && Lacks(text, '@') && Lacks(text, '%') && ParseName(text).Ok?
    ensures IsAuthority(text, ParseName(text).value)
  {
    hide FindChar, IsIpv6Literal, PortOf, Number;
    var a := ParseName(text).value;
    FindCharRun(text, ':');
    var colon := FindChar(text, ':');
    if colon >= 0 {
      Cut(text, 0, colon);
      PortDigits(text[colon + 1..], a.port);
      assert text[0..] == text && text[0..colon] == text[..colon];
      assert AuthorityParts(text, a, text[colon + 1..]);
    } else {
      assert text + "" == text;
      assert AuthorityParts(text, a, "");
    }
  }

  lemma AuthoritySound(text: string)
    requires text != "" && ParseAuthority(text).Ok?
    ensures IsAuthority(text, ParseAuthority(text).value)
  {
    hide Lacks, IsAuthority, ParseLiteral, ParseName;
    if text[0] == '[' {
      LiteralSound(text);
    } else {
      NameSound(text);
    }
  }

  lemma NumberLacks(digits: string)
    requires Number(digits, 10).Some?
    ensures Lacks(digits, ':')
  {
    hide NatOf;
  }

  lemma AuthorityComplete(text: string, a: Authority)
    requires IsAuthority(text, a)
    ensures text != "" && ParseAuthority(text) == Ok(a)
  {
    hide FindChar, IsIpv6Literal, PortOf, Number;
    var digits: string :| AuthorityParts(text, a, digits);
    PortDigits(digits, a.port);
    if a.ipv6 {
      var open, tail := "[" + a.host, if a.explicitPort then ":" + digits else "";
      assert Lacks(open, ']');
      FindCharAt(open, ']', tail);
      Regroup(open, "]", tail);
      assert text[1..|open|] == a.host && text[|open| + 1..] == tail && text[0] == '[';
      if tail != "" {
        CutSum(text, |open| + 1, 1);
        assert text[|open| + 1] == tail[0];
      }
    } else if a.explicitPort {
      FindCharAt(a.host, ':', digits);
      CutAround(a.host, ":", digits);
      NumberLacks(digits);
      assert text[0] == a.host[0];
    } else {
      assert a.host + "" == a.host;
      FindCharNone(a.host, ':');
    }
  }

  lemma UrlPrints(input: string, t: UrlText, after: string, k: nat, end: nat)
    requires |input| >= 7 && input[4..] == "://" + after && end <= k <= |after| && (k < |after| ==> after[k] == '#')
    requires t == UrlText(input[..4], after[..k][..end], after[..k][end..], if k < |after|
             then Some(after[k + 1..]) else None)
    ensures t.Print() == input
  {
    var fragment := if k < |after| then "#" + after[k + 1..] else "";
    CutOnce(after[..k], end);
    Regroup(t.authority, t.tail, fragment);
    assert after[..k] + fragment == after;
    CutOnce(input, 4);
  }

  lemma RestLacks(rest: string, end: nat)
    requires end <= |rest| && (forall j :: 0 <= j < end ==> rest[j] !in "/?") &&
             (forall j :: 0 <= j < |rest| ==> rest[j] !in "#")
    ensures Lacks(rest[..end], '/') && Lacks(rest[..end], '?') && Lacks(rest[..end], '#') && Lacks(rest[end..], '#')
  {
    assert "/?"[0] == '/' && "/?"[1] == '?' && "#"[0] == '#';
  }

  /** The pieces of an input the parser accepts are those of a URL. */
  lemma PiecesSound(input: string, t: UrlText, rest: string, end: nat)
    requires ParseUrl(input).Ok? && input == t.Print() && IEquals(t.scheme, "http")
    requires end <= |rest| && t.authority == rest[..end] && t.tail == rest[end..] && end == Until(rest, 0, "/?")
    requires Lacks(rest, '#') && ParseRest(rest) == ParseUrl(input)
    ensures IsUrl(t, ParseUrl(input).value)
  {
    hide Find, IsForbidden, ParseAuthority, EscapesFrom, Until, WithTarget, IsAuthority, TargetOf, IsEscaped, IsTail,
         IEquals, UrlText.Print;
    var a := ParseAuthority(t.authority).value;
    UntilRun(rest, 0, "/?");
    AuthoritySound(t.authority);
    RestLacks(rest, end);
    TailMeans(t.tail, a, ParseUrl(input).value);
    assert UrlParts(t, a);
  }

  lemma NoHash(s: string, k: nat)
    requires k <= |s| && forall j :: 0 <= j < k ==> s[j] !in "#"
    ensures Lacks(s[..k], '#')
  {
    assert '#' in "#";
  }

  lemma AfterScheme(input: string)
    requires ParseUrl(input).Ok?
    ensures |input| >= 7 && IEquals(input[..4], "http") && input[4..] == "://" + input[7..]
    ensures ParseRest(BeforeFragment(input[7..])) == ParseUrl(input)
  {
    hide Find, HasForbidden, ParseRest, Until, IEquals;
    FragmentAfterScheme(input);
    FindRun(input, "://");
    assert input[4] == "://"[0] && input[5] == "://"[1] && input[6] == "://"[2];
  }

  /** The URL text the parser sees in an input it accepts. */
  lemma UrlSound(input: string) returns (t: UrlText)
    requires ParseUrl(input).Ok?
    ensures t.Print() == input && IsUrl(t, ParseUrl(input).value)
  {
    hide Find, HasForbidden, ParseUrl, ParseRest, Until, IEquals, IsUrl, UrlText.Print, Lacks;
    AfterScheme(input);
    var after := input[7..];
    var k := Until(after, 0, "#");
    var rest := after[..k];
    var end := Until(rest, 0, "/?");
    UntilRun(after, 0, "#");
    t := UrlText(input[..4], rest[..end], rest[end..], if k < |after| then Some(after[k + 1..]) else None);
    assert k < |after| ==> after[k] in "#" && after[k] == '#';
    UrlPrints(input, t, after, k, end);
    assert Lacks(rest, '#') by { NoHash(after, k); }
    PiecesSound(input, t, rest, end);
  }

  lemma SchemeIsFour(scheme: string)
    requires IEquals(scheme, "http")
    ensures |scheme| == 4 && Lacks(scheme, ':')
  {
    assert forall i :: 0 <= i < 4 ==> Lower(scheme[i]) == Lower("http"[i]);
  }

  lemma SchemeFound(scheme: string, rest: string)
    requires |scheme| == 4 && Lacks(scheme, ':')
    ensures var s := scheme + ("://" + rest); Find(s, "://") == 4 && s[..4] == scheme && s[7..] == rest
  {
    var s := scheme + ("://" + rest);
    assert s[4] == ':' && s[5] == '/' && s[6] == '/';
    assert forall j :: 0 <= j < 4 ==> s[j] == scheme[j];
    forall j | 0 <= j < 4 ensures !At(s, "://", j) {
      AtStart(s, "://", j);
    }
    FindIs(s, "://", 4);
  }

  lemma UntilAtHash(t: UrlText, rest: string, fragment: string)
    requires rest == t.authority + t.tail && Lacks(t.authority, '#') && Lacks(t.tail, '#')
    requires fragment == if t.fragment.Some? then "#" + t.fragment.value else ""
    ensures Until(rest + fragment, 0, "#") == |rest|
  {
    assert forall j :: 0 <= j < |rest| ==>
           rest[j] == if j < |t.authority| then t.authority[j] else t.tail[j - |t.authority|];
    UntilAt(rest, fragment, "#");
  }

  lemma UntilAtTail(t: UrlText)
    requires Lacks(t.authority, '/') && Lacks(t.authority, '?') &&
             (t.tail == "" || t.tail[0] == '/' || t.tail[0] == '?')
    ensures Until(t.authority + t.tail, 0, "/?") == |t.authority|
  {
    UntilAt(t.authority, t.tail, "/?");
  }

  lemma UrlComplete(t: UrlText, p: Parts)
    requires IsUrl(t, p)
    ensures ParseUrl(t.Print()) == Ok(p)
  {
    hide Find, IsForbidden, ParseAuthority, EscapesFrom, Until, WithTarget, IsAuthority, TargetOf, IEquals, IsEscaped,
         IsTail;
    var a: Authority :|
      && UrlParts(t, a) && IsTail(t.tail, p.path, p.query)
      && p.host == a.host && p.port == a.port && p.explicitPort == a.explicitPort && p.ipv6 == a.ipv6;
    TailMeans(t.tail, a, p);
    var fragment := if t.fragment.Some? then "#" + t.fragment.value else "";
    var rest := t.authority + t.tail;
    var s := t.Print();
    Regroup(t.authority, t.tail, fragment);
    SchemeIsFour(t.scheme);
    SchemeFound(t.scheme, rest + fragment);
    UntilAtHash(t, rest, fragment);
    CutAtSeam(rest, fragment);
    UntilAtTail(t);
    CutAtSeam(t.authority, t.tail);
    AuthorityComplete(t.authority, a);
  }

  /** The parser accepts exactly the texts of the grammar, with exactly their meaning. */
  lemma ParseExact(input: string, p: Parts)
    ensures ParseUrl(input) == Ok(p) <==> exists t: UrlText :: t.Print() == input && IsUrl(t, p)
  {
    hide ParseUrl, IsUrl;
    if ParseUrl(input) == Ok(p) {
      var t := UrlSound(input);
    }
    if t: UrlText :| t.Print() == input && IsUrl(t, p) {
      UrlComplete(t, p);
    }
  }

  // ---------- The errors ----------

  /** Text that is no port number from 1 to 65535. */
  predicate IsNoPort(digits: string) {
    match Number(digits, 10) case None => true case Some(n) => n == 0 || n > 65535
  }

  /** host or "[" host "]", ":", and no port number. */
  predicate BadPortParts(text: string, host: string, ipv6: bool, digits: string) {
    && text == (if ipv6 then "[" + host + "]" else host) + (":" + digits) && Lacks(text, '@') && Lacks(text, '%')
    && host != "" && IsNoPort(digits)
    && (if ipv6 then IsIpv6Literal(host) && Lacks(host, ']')
        else host[0] != '[' && Lacks(host, ':') && Lacks(digits, ':'))
  }

  /** An authority whose only fault is its port. */
  ghost predicate HasBadPort(text: string) {
    exists host: string, ipv6: bool, digits: string :: BadPortParts(text, host, ipv6, digits)
  }

  lemma NoPortFails(digits: string)
    ensures PortOf(digits).Err? <==> IsNoPort(digits)
    ensures PortOf(digits).Err? ==> PortOf(digits) == Err(InvalidPort)
  {
    hide Number;
  }

  lemma BadPortFails(text: string, host: string, ipv6: bool, digits: string)
    requires BadPortParts(text, host, ipv6, digits)
    ensures text != "" && ParseAuthority(text) == Err(InvalidPort)
  {
    hide FindChar, IsIpv6Literal, PortOf, IsNoPort;
    NoPortFails(digits);
    if ipv6 {
      var open := "[" + host;
      assert Lacks(open, ']');
      FindCharAt(open, ']', ":" + digits);
      Regroup(open, "]", ":" + digits);
      assert text == open + ("]" + (":" + digits));
      assert text[1..|open|] == host && text[|open| + 1..] == ":" + digits;
      CutSum(text, |open| + 1, 1);
      assert text[|open| + 1] == ':';
    } else {
      FindCharAt(host, ':', digits);
      CutAround(host, ":", digits);
      assert text[0] == host[0];
    }
  }

  lemma LiteralBadPort(text: string)
    requires text != "" && text[0] == '[' && Lacks(text, '@') && Lacks(text, '%') &&
             ParseLiteral(text) == Err(InvalidPort)
    ensures HasBadPort(text)
  {
    hide FindChar, IsIpv6Literal, PortOf, IsNoPort;
    FindCharRun(text, ']');
    var closing := FindChar(text, ']');
    var digits := text[closing + 2..];
    LiteralSplits(text, closing);
    NoPortFails(digits);
    assert BadPortParts(text, text[1..closing], true, digits);
  }

  lemma NameBadPort(text: string)
    requires text != "" && text[0] != '[' && Lacks(text, '@') && Lacks(text, '%') && ParseName(text) == Err(InvalidPort)
    ensures HasBadPort(text)
  {
    hide FindChar, IsIpv6Literal, PortOf, IsNoPort;
    FindCharRun(text, ':');
    var colon := FindChar(text, ':');
    NoPortFails(text[colon + 1..]);
    CutOnce(text, colon);
    assert text[colon..] == ":" + text[colon + 1..];
    assert BadPortParts(text, text[..colon], false, text[colon + 1..]);
  }

  lemma AuthorityCodes(text: string)
    requires text != "" && ParseAuthority(text).Err?
    ensures ParseAuthority(text).error in {InvalidPort, InvalidUrl}
  {
    hide FindChar, IsIpv6Literal, Number;
  }

  lemma AuthorityFails(text: string)
    requires text != "" && ParseAuthority(text).Err?
    ensures ParseAuthority(text) == Err(if HasBadPort(text) then InvalidPort else InvalidUrl)
  {
    hide FindChar, IsIpv6Literal, IsNoPort, BadPortParts, PortOf;
    if host: string, ipv6: bool, digits: string :| BadPortParts(text, host, ipv6, digits) {
      BadPortFails(text, host, ipv6, digits);
    }
    if ParseAuthority(text) == Err(InvalidPort) {
      if text[0] == '[' {
        LiteralBadPort(text);
      } else {
        NameBadPort(text);
      }
    }
    AuthorityCodes(text);
  }

  /** What stands between "://" and the first of '/', '?' and '#'. */
  function AuthorityOf(input: string): string
    requires Find(input, "://") >= 0
  {
    var rest := input[Find(input, "://") + 3..];
    rest[..Until(rest, 0, "/?#")]
  }

  lemma FirstOfThree(rest: string)
    ensures var k := Until(rest, 0, "#");
            var end := Until(rest[..k], 0, "/?");
            end == Until(rest, 0, "/?#") && rest[..k][..end] == rest[..end]
  {
    var k := Until(rest, 0, "#");
    var end := Until(rest[..k], 0, "/?");
    UntilRun(rest, 0, "#");
    UntilRun(rest[..k], 0, "/?");
    assert forall j :: 0 <= j < end ==> rest[j] == rest[..k][j];
    assert forall c :: c in "/?#" <==> c in "/?" || c in "#";
    UntilIs(rest, 0, "/?#", end);
  }

  lemma NoGrammar(input: string)
    ensures ParseUrl(input).Err? <==> forall t: UrlText, p: Parts :: !(t.Print() == input && IsUrl(t, p))
  {
    hide ParseUrl, IsUrl, UrlText.Print;
    if ParseUrl(input).Ok? {
      var t := UrlSound(input);
      assert t.Print() == input && IsUrl(t, ParseUrl(input).value);
    }
    if t: UrlText, p: Parts :| t.Print() == input && IsUrl(t, p) {
      UrlComplete(t, p);
    }
  }

  lemma BadPortIsNotEmpty(text: string)
    requires HasBadPort(text)
    ensures text != "" && ParseAuthority(text) == Err(InvalidPort)
  {
    hide BadPortParts, ParseAuthority;
    var host: string, ipv6: bool, digits: string :| BadPortParts(text, host, ipv6, digits);
    BadPortFails(text, host, ipv6, digits);
  }

  lemma FailsCode(input: string)
    requires ParseUrl(input).Err?
    ensures ParseUrl(input).error ==
            var i := Find(input, "://");
            if HasForbidden(input) || i <= 0 then InvalidUrl
            else if !IEquals(input[..i], "http") then UnsupportedScheme
            else if HasBadPort(AuthorityOf(input)) then InvalidPort
            else InvalidUrl
  {
    hide Find, IsForbidden, ParseAuthority, EscapesFrom, Until, WithTarget, TargetOf, IEquals, HasBadPort;
    var i := Find(input, "://");
    if !HasForbidden(input) && i > 0 && IEquals(input[..i], "http") {
      FirstOfThree(input[i + 3..]);
      if HasBadPort(AuthorityOf(input)) {
        BadPortIsNotEmpty(AuthorityOf(input));
      }
      if AuthorityOf(input) != "" && ParseAuthority(AuthorityOf(input)).Err? {
        AuthorityFails(AuthorityOf(input));
      }
    }
  }

  lemma FailsWithout(input: string)
    ensures var i := Find(input, "://");
            HasForbidden(input) || i <= 0 || !IEquals(input[..i], "http") || HasBadPort(AuthorityOf(input)) ==>
              ParseUrl(input).Err?
  {
    hide Find, IsForbidden, ParseAuthority, EscapesFrom, Until, WithTarget, TargetOf, IEquals, HasBadPort;
    var i := Find(input, "://");
    if i > 0 && HasBadPort(AuthorityOf(input)) {
      FirstOfThree(input[i + 3..]);
      BadPortIsNotEmpty(AuthorityOf(input));
    }
  }

  /** Why a text is no URL. */
  lemma FailsExact(input: string, e: ErrorCode)
    ensures ParseUrl(input) == Err(e) <==>
            var i := Find(input, "://");
            if HasForbidden(input) || i <= 0 then e == InvalidUrl
            else if !IEquals(input[..i], "http") then e == UnsupportedScheme
            else if HasBadPort(AuthorityOf(input)) then e == InvalidPort
            else e == InvalidUrl && forall t: UrlText, p: Parts :: !(t.Print() == input && IsUrl(t, p))
  {
    hide Find, HasForbidden, ParseUrl, IEquals, HasBadPort, IsUrl;
    NoGrammar(input);
    FailsWithout(input);
    if ParseUrl(input).Err? {
      FailsCode(input);
    }
  }
}
