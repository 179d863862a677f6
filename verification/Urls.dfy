/** URL parsing (src/core/url.cpp): what a URL means, part by part, and the offset-keeping parser that
 finds the parts in place. */
module Urls {
  import opened Results
  import opened Text

  // ---------- What a URL means ----------

  datatype Parts = Parts(host: string, port: nat, explicitPort: bool, ipv6: bool, path: string, query: Option<string>) {
    /** The request target: path, and query if there is one. */
    function Target(): string {
      path + if query.Some? then "?" + query.value else ""
    }
  }

  /** The texts inet_pton accepts as IPv6 addresses. Nothing more is assumed about them. */
  const INET6: set<string>

  predicate IsIpv6Literal(text: string) {
    text != "" && |text| < 64 && Lacks(text, '%') && text in INET6
  }

  predicate IsForbidden(c: char) { c <= ' ' || c as int == 0x7f }

  predicate HasForbidden(s: string) { exists i :: 0 <= i < |s| && IsForbidden(s[i]) }

  predicate IsHex(c: char) { DigitOf(c) >= 0 }

  /** Every '%' from `i` on starts an escape of two hex digits. */
  predicate EscapesFrom(s: string, i: nat)
    decreases |s| - i
  {
    if i >= |s| then true
    else if s[i] != '%' then EscapesFrom(s, i + 1)
    else i + 2 < |s| && IsHex(s[i + 1]) && IsHex(s[i + 2]) && EscapesFrom(s, i + 3)
  }

  function PortOf(text: string): Result<nat> {
    match Number(text, 10)
    case Some(n) => if 1 <= n <= 0xffff then Ok(n) else Err(InvalidPort)
    case None => Err(InvalidPort)
  }

  datatype Authority = Authority(host: string, port: nat, explicitPort: bool, ipv6: bool)

  /** "[" literal "]", and possibly ":" and a port. */
  function ParseLiteral(a: string): Result<Authority>
    requires a != ""
  {
    var closing := FindChar(a, ']');
    if closing <= 1 || !IsIpv6Literal(a[1..closing]) then Err(InvalidUrl)
    else if closing + 1 == |a| then Ok(Authority(a[1..closing], 80, false, true))
    else if a[closing + 1] != ':' then Err(InvalidUrl)
    else var port :- PortOf(a[closing + 2..]); Ok(Authority(a[1..closing], port, true, true))
  }

  /** A name, and possibly ":" and a port. */
  function ParseName(a: string): Result<Authority>
    requires a != ""
  {
    var colon := FindChar(a, ':');
    if colon < 0 then Ok(Authority(a, 80, false, false))
    else if !Lacks(a[colon + 1..], ':') || colon == 0 then Err(InvalidUrl)
    else var port :- PortOf(a[colon + 1..]); Ok(Authority(a[..colon], port, true, false))
  }

  function ParseAuthority(a: string): Result<Authority>
    requires a != ""
  {
    if !Lacks(a, '@') || !Lacks(a, '%') then Err(InvalidUrl)
    else if a[0] == '[' then ParseLiteral(a)
    else ParseName(a)
  }

  /** Path and query of a target, given as text. */
  function WithTarget(a: Authority, target: string): Parts {
    var mark := Until(target, 0, "?");
    Parts(a.host, a.port, a.explicitPort, a.ipv6, target[..mark],
          if mark < |target| then Some(target[mark + 1..]) else None)
  }

  /** The target a tail after the authority stands for: a missing path becomes "/". */
  function TargetOf(tail: string): string {
    if tail == "" || tail[0] == '?' then "/" + tail else tail
  }

  /** What follows "http://", without its fragment. */
  function ParseRest(rest: string): Result<Parts> {
    var end := Until(rest, 0, "/?");
    if end == 0 then Err(InvalidUrl)
    else
      var authority :- ParseAuthority(rest[..end]);
      var target := TargetOf(rest[end..]);
      if EscapesFrom(target, 0) then Ok(WithTarget(authority, target)) else Err(InvalidUrl)
  }

  function BeforeFragment(s: string): string { s[..Until(s, 0, "#")] }

  function ParseUrl(input: string): Result<Parts> {
    var separator := Find(input, "://");
    if HasForbidden(input) || separator <= 0 then Err(InvalidUrl)
    else if !IEquals(input[..separator], "http") then Err(UnsupportedScheme)
    else ParseRest(BeforeFragment(input[separator + 3..]))
  }

  // ---------- The parser's representation ----------

  /** The class Url: one string, and offsets into it. */
  datatype Url = Url(
    storage: string,
    schemeBegin: nat, schemeSize: nat,
    hostBegin: nat, hostSize: nat,
    pathBegin: nat, pathSize: nat,
    queryBegin: nat, querySize: nat,
    targetBegin: nat, targetSize: nat,
    port: nat, hasExplicitPort: bool, hostIsIpv6Literal: bool)
  {
    predicate InBounds() {
      && schemeBegin + schemeSize <= |storage| && hostBegin + hostSize <= |storage|
      && pathBegin + pathSize <= |storage| && queryBegin + querySize <= |storage| &&
         targetBegin + targetSize <= |storage|
    }

    function Scheme(): string requires InBounds() { storage[schemeBegin..schemeBegin + schemeSize] }

    function Host(): string requires InBounds() { storage[hostBegin..hostBegin + hostSize] }

    function Path(): string requires InBounds() { storage[pathBegin..pathBegin + pathSize] }

    function Query(): string requires InBounds() { storage[queryBegin..queryBegin + querySize] }

    function Target(): string requires InBounds() { storage[targetBegin..targetBegin + targetSize] }

    /** Every accessor gives its part. */
    predicate Represents(p: Parts) {
      && InBounds() && Scheme() == "http" && Host() == p.host && Path() == p.path
      && Query() == p.query.GetOr("") && Target() == p.Target()
      && port == p.port && hasExplicitPort == p.explicitPort && hostIsIpv6Literal == p.ipv6
    }
  }

  method ContainsForbiddenUrlByte(input: string) returns (found: bool)
    ensures found == HasForbidden(input)
  {
    for i := 0 to |input|
      invariant forall j :: 0 <= j < i ==> !IsForbidden(input[j])
    {
      if IsForbidden(input[i]) {
        return true;
      }
    }
    return false;
  }

  method ValidPercentEscapes(text: string) returns (ok: bool)
    ensures ok == EscapesFrom(text, 0)
  {
    hide IsHex;
    var index := 0;
    while index < |text|
      invariant EscapesFrom(text, index) == EscapesFrom(text, 0)
    {
      if text[index] != '%' {
        index := index + 1;
        continue;
      }
      if index + 2 >= |text| || !IsHex(text[index + 1]) || !IsHex(text[index + 2]) {
        return false;
      }
      index := index + 3;
    }
    return true;
  }

  method ParsePort(text: string) returns (r: Result<nat>)
    ensures r == PortOf(text)
  {
    var value := FromChars(text, 10);
    match value
    case None => return Err(InvalidPort);
    case Some(n) => return if n == 0 || n > 0xffff then Err(InvalidPort) else Ok(n);
  }

  function LastBefore(s: string, c: char, n: nat): (i: int)
    requires n <= |s|
    ensures -1 <= i < n && (i >= 0 ==> s[i] == c)
  {
    if n == 0 then NPOS else if s[n - 1] == c then n - 1 else LastBefore(s, c, n - 1)
  }

  /** std::string::rfind of one character. */
  function LastOf(s: string, c: char): (i: int)
    ensures -1 <= i < |s| && (i >= 0 ==> s[i] == c)
  {
    LastBefore(s, c, |s|)
  }

  lemma {:induction false} LastBeforeRun(s: string, c: char, n: nat)
    requires n <= |s|
    ensures forall j :: LastBefore(s, c, n) < j < n ==> s[j] != c
  {
    if n > 0 && s[n - 1] != c {
      LastBeforeRun(s, c, n - 1);
    }
  }

  lemma {:induction false} LastBeforeIs(s: string, c: char, n: nat, i: nat)
    requires i < n <= |s| && s[i] == c && forall j :: i < j < n ==> s[j] != c
    ensures LastBefore(s, c, n) == i
  {
    if i < n - 1 {
      LastBeforeIs(s, c, n - 1, i);
    }
  }

  /** Where the host lies in an authority, and the port and flags beside it. */
  datatype HostAt = HostAt(begin: nat, size: nat, port: nat, explicitPort: bool, ipv6: bool) {
    predicate Names(text: string, a: Authority) {
      && 0 < size && begin + size <= |text| && text[begin..begin + size] == a.host
      && port == a.port && explicitPort == a.explicitPort && ipv6 == a.ipv6
    }
  }

  /** What the host step finds is what the authority means, or its error. */
  predicate Finds(text: string, r: Result<HostAt>, meaning: Result<Authority>) {
    match meaning
    case Err(e) => r == Err(e)
    case Ok(a) => r.Ok? && r.value.Names(text, a)
  }

  /** The branch for a bracketed literal. */
  method FindLiteral(authority: string) returns (r: Result<HostAt>)
    requires authority != "" && authority[0] == '['
    ensures Finds(authority, r, ParseLiteral(authority))
  {
    hide PortOf, IsIpv6Literal, FindChar;
    var closing := FindChar(authority, ']');
    if closing < 0 || closing == 1 {
      return Err(InvalidUrl);
    }
    var literal := authority[1..closing];
    if !IsIpv6Literal(literal) {
      return Err(InvalidUrl);
    }
    var remainder := authority[closing + 1..];
    if remainder == "" {
      return Ok(HostAt(1, closing - 1, 80, false, true));
    }
    if remainder[0] != ':' {
      return Err(InvalidUrl);
    }
    CutSum(authority, closing + 1, 1);
    var port := ParsePort(remainder[1..]);
    match port
    case Err(e) => return Err(e);
    case Ok(n) => return Ok(HostAt(1, closing - 1, n, true, true));
  }

  lemma FirstAndLast(s: string, c: char)
    ensures var first, last := FindChar(s, c), LastOf(s, c);
            && (first < 0 <==> last < 0)
            && (first >= 0 ==> (first == last <==> Lacks(s[first + 1..], c)))
  {
    hide LastBefore, FindChar;
    var first, last := FindChar(s, c), LastOf(s, c);
    FindCharRun(s, c);
    LastBeforeRun(s, c, |s|);
    if first >= 0 {
      var before, after := s[..first], s[first + 1..];
      assert forall j :: 0 <= j < |before| ==> before[j] == s[j];
      assert forall j :: 0 <= j < |after| ==> after[j] == s[first + 1 + j];
      assert last >= first;
      assert last > first ==> after[last - first - 1] == c;
    }
  }

  /** The branch for a name. */
  method FindName(authority: string) returns (r: Result<HostAt>)
    requires authority != ""
    ensures Finds(authority, r, ParseName(authority))
  {
    hide PortOf, FindChar, LastOf, Lacks;
    var colon := LastOf(authority, ':');
    FirstAndLast(authority, ':');
    CutWhole(authority);
    if colon < 0 {
      return Ok(HostAt(0, |authority|, 80, false, false));
    }
    if FindChar(authority, ':') != colon {
      return Err(InvalidUrl);
    }
    if colon == 0 {
      return Err(InvalidUrl);
    }
    var port := ParsePort(authority[colon + 1..]);
    match port
    case Err(e) => return Err(e);
    case Ok(n) => return Ok(HostAt(0, colon, n, true, false));
  }

  lemma RejectedAuthority(text: string)
    ensures Finds(text, Err(InvalidUrl), Err(InvalidUrl))
  {
  }

  /** The authority step of the parser. */
  method FindHost(authority: string) returns (r: Result<HostAt>)
    requires authority != ""
    ensures Finds(authority, r, ParseAuthority(authority))
  {
    hide ParseLiteral, ParseName, FindChar, Finds;
    FindCharRun(authority, '@');
    FindCharRun(authority, '%');
    RejectedAuthority(authority);
    if FindChar(authority, '@') >= 0 || FindChar(authority, '%') >= 0 {
      return Err(InvalidUrl);
    }
    if authority[0] == '[' {
      r := FindLiteral(authority);
    } else {
      r := FindName(authority);
    }
  }

  function LowerAll(s: string): string {
    seq(|s|, i requires 0 <= i < |s| => Lower(s[i]))
  }

  lemma TargetPieces(s: string, at: nat, mark: nat)
    requires at + mark <= |s|
    ensures var t := s[at..];
            && s[at..at + mark] == t[..mark] && s[at..|s|] == t && s[|s|..|s|] == ""
            && if mark == |t| then t[..mark] + "" == t
               else && s[at + mark + 1..|s|] == t[mark + 1..]
                    && (t[mark] == '?' ==> t == t[..mark] + ("?" + t[mark + 1..]))
  {
    var t := s[at..];
    if mark < |t| && t[mark] == '?' {
      CutTwice(t, mark, mark + 1);
      assert t[mark..mark + 1] == "?";
    }
  }

  /** The offsets, once computed, name the parts. */
  lemma OffsetsRepresent(u: Url, mark: nat, a: Authority)
    requires 4 <= |u.storage| && u.storage[..4] == "http" && u.schemeBegin == 0 && u.schemeSize == 4
    requires u.hostBegin + u.hostSize <= |u.storage| && u.storage[u.hostBegin..u.hostBegin + u.hostSize] == a.host
    requires u.port == a.port && u.hasExplicitPort == a.explicitPort && u.hostIsIpv6Literal == a.ipv6
    requires u.pathBegin == u.targetBegin <= |u.storage| && u.targetSize == |u.storage| - u.pathBegin &&
             u.pathSize == mark
    requires mark == Until(u.storage[u.pathBegin..], 0, "?")
    requires u.querySize == (if mark == u.targetSize then 0 else u.targetSize - mark - 1) &&
             u.queryBegin == |u.storage| - u.querySize
    ensures u.Represents(WithTarget(a, u.storage[u.pathBegin..]))
  {
    hide Until;
    TargetPieces(u.storage, u.pathBegin, mark);
  }

  lemma UntilShift(head: string, rest: string, stops: string)
    ensures Until(head + rest, |head|, stops) == |head| + Until(rest, 0, stops)
  {
    var s, k := head + rest, Until(rest, 0, stops);
    UntilRun(rest, 0, stops);
    assert forall j :: |head| <= j < |s| ==> s[j] == rest[j - |head|];
    UntilIs(s, |head|, stops, |head| + k);
  }

  lemma UntilFrom(s: string, from: nat, stops: string)
    requires from <= |s|
    ensures Until(s, from, stops) == from + Until(s[from..], 0, stops)
  {
    CutOnce(s, from);
    UntilShift(s[..from], s[from..], stops);
  }

  /** The path and query offsets, and the escape check. */
  method LocateTarget(storage: string, pathBegin: nat, host: HostAt, hostBegin: nat, ghost a: Authority)
    returns (r: Result<Url>)
    requires pathBegin <= |storage| && hostBegin + host.size <= |storage|
    requires 4 <= |storage| && storage[..4] == "http" && storage[hostBegin..hostBegin + host.size] == a.host
    requires host.port == a.port && host.explicitPort == a.explicitPort && host.ipv6 == a.ipv6
    ensures var target := storage[pathBegin..];
            if EscapesFrom(target, 0) then r.Ok? && r.value.Represents(WithTarget(a, target)) else r == Err(InvalidUrl)
  {
    hide EscapesFrom, Until, Url.Represents, WithTarget;
    var queryMarker := Until(storage, pathBegin, "?");
    UntilFrom(storage, pathBegin, "?");
    var valid := ValidPercentEscapes(storage[pathBegin..]);
    if !valid {
      return Err(InvalidUrl);
    }
    var querySize := if queryMarker == |storage| then 0 else |storage| - queryMarker - 1;
    r := Ok(Url(storage, 0, 4, hostBegin, host.size,
                pathBegin, queryMarker - pathBegin, |storage| - querySize, querySize,
                pathBegin, |storage| - pathBegin, host.port, host.explicitPort, host.ipv6));
    OffsetsRepresent(r.value, queryMarker - pathBegin, a);
  }

  lemma UrlTail(rest: string, k: nat)
    requires k <= |rest|
    ensures ("http" + ("://" + rest))[7 + k..] == rest[k..] && ("http" + ("://" + rest))[0..4] == "http"
  {
  }

  lemma SliceOfSlice(s: string, lo: nat, hi: nat, i: nat, j: nat)
    requires lo <= hi <= |s| && i <= j <= hi - lo
    ensures s[lo..hi][i..j] == s[lo + i..lo + j]
  {
    var t, u := s[lo..hi][i..j], s[lo + i..lo + j];
    assert forall k :: 0 <= k < |t| ==> t[k] == u[k];
  }

  /** Inserting the missing '/' moves nothing that lies before it. */
  lemma SlashInserted(before: string, rest: string, end: nat, after: string, hostBegin: nat, hostSize: nat)
    requires before == "http" + ("://" + rest) && 7 <= end <= |before| && hostBegin + hostSize <= end
    requires after == if end == |before| then before + "/"
                      else if before[end] == '?' then before[..end] + "/" + before[end..]
                      else before
    ensures after[..4] == "http" && end <= |after| && after[end..] == TargetOf(rest[end - 7..])
    ensures hostBegin + hostSize <= |after|
    ensures after[hostBegin..hostBegin + hostSize] == before[hostBegin..hostBegin + hostSize]
  {
    var tail := before[end..];
    CutOnce(before, end);
    assert after == before[..end] + TargetOf(tail);
    CutAtSeam(before[..end], TargetOf(tail));
    Regroup("http", "://", rest);
    UrlTail(rest, end - 7);
    SliceOfSlice(before, 0, end, hostBegin, hostBegin + hostSize);
    SliceOfSlice(after, 0, end, hostBegin, hostBegin + hostSize);
    SliceOfSlice(before, 0, end, 0, 4);
    SliceOfSlice(after, 0, end, 0, 4);
  }

  lemma AfterSeven(rest: string, k: nat)
    requires k <= |rest|
    ensures ("http://" + rest)[7..7 + k] == rest[..k]
  {
  }

  /** The rest of Parse, on the string without fragment and with its scheme lowered. */
  method Locate(lowered: string, ghost rest: string) returns (r: Result<Url>)
    requires lowered == "http" + ("://" + rest)
    ensures match ParseRest(rest)
            case Err(e) => r == Err(e)
            case Ok(parts) => r.Ok? && r.value.Represents(parts)
  {
    hide ParseAuthority, EscapesFrom, Until, WithTarget, TargetOf, Url.Represents;
    var storage := lowered;
    assert storage == "http://" + rest;
    var authorityBegin := 7;
    if authorityBegin >= |storage| {
      assert Until(rest, 0, "/?") == 0;
      return Err(InvalidUrl);
    }
    var authorityEnd := Until(storage, authorityBegin, "/?");
    UntilShift("http://", rest, "/?");
    if authorityEnd == authorityBegin {
      return Err(InvalidUrl);
    }
    AfterSeven(rest, authorityEnd - 7);
    var authority := storage[authorityBegin..authorityEnd];
    var found := FindHost(authority);
    if found.Err? {
      return Err(found.error);
    }
    var host := found.value;
    var hostBegin := authorityBegin + host.begin;
    SliceOfSlice(storage, authorityBegin, authorityEnd, host.begin, host.begin + host.size);

    if authorityEnd == |storage| {
      storage := storage + "/";
    } else if storage[authorityEnd] == '?' {
      storage := storage[..authorityEnd] + "/" + storage[authorityEnd..];
    }
    SlashInserted(lowered, rest, authorityEnd, storage, hostBegin, host.size);

    r := LocateTarget(storage, authorityEnd, host, hostBegin, ParseAuthority(authority).value);
  }

  lemma FragmentAfterScheme(input: string)
    requires Find(input, "://") >= 0 && IEquals(input[..Find(input, "://")], "http")
    ensures var at := Find(input, "://");
            && at == 4 && 7 <= |BeforeFragment(input)| && BeforeFragment(input)[..at] == input[..at]
            && BeforeFragment(input)[at..] == "://" + BeforeFragment(input[at + 3..])
  {
    hide Find;
    var at := Find(input, "://");
    FindRun(input, "://");
    assert input[at] == "://"[0] && input[at + 1] == "://"[1] && input[at + 2] == "://"[2];
    var rest := input[7..];
    var k := Until(rest, 0, "#");
    UntilRun(rest, 0, "#");
    assert forall j :: 0 <= j < 4 ==> Lower(input[..4][j]) == Lower("http"[j]);
    assert forall j :: 7 <= j < 7 + k ==> input[j] == rest[j - 7];
    UntilIs(input, 0, "#", 7 + k);
    assert input[..7 + k][4..] == "://" + rest[..k];
  }

  lemma SchemeLowered(input: string)
    requires Find(input, "://") >= 0 && IEquals(input[..Find(input, "://")], "http")
    ensures LowerAll(input[..Find(input, "://")]) == "http"
  {
    hide Find;
    var s := input[..Find(input, "://")];
    assert forall j :: 0 <= j < 4 ==> Lower("http"[j]) == "http"[j];
  }

  method Parse(input: string) returns (r: Result<Url>)
    ensures match ParseUrl(input)
            case Err(e) => r == Err(e)
            case Ok(parts) => r.Ok? && r.value.Represents(parts)
  {
    hide ParseRest, Find, Until;
    var forbidden := ContainsForbiddenUrlByte(input);
    var separator := Find(input, "://");
    if input == "" || forbidden {
      return Err(InvalidUrl);
    }
    if separator <= 0 {
      return Err(InvalidUrl);
    }
    if !IEquals(input[..separator], "http") {
      return Err(UnsupportedScheme);
    }
    var withoutFragment := BeforeFragment(input);
    FragmentAfterScheme(input);
    SchemeLowered(input);
    var storage := LowerAll(withoutFragment[..separator]) + withoutFragment[separator..];
    r := Locate(storage, BeforeFragment(input[separator + 3..]));
  }

  lemma FragmentCut(s: string)
    ensures var i := FindChar(s, '#'); BeforeFragment(s) == if i < 0 then s else s[..i]
  {
    assert ['#'] == "#";
    assert s[..|s|] == s;
  }
}
