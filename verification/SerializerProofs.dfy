/** What request printing promises: queries decode to their parameters, appending to the URL and to the
 target is the same thing, and the printed head parses back. */
module SerializerProofs {
  import opened Results
  import opened Text
  import opened Heads
  import opened HeadProofs
  import opened Urls
  import opened UrlProofs
  import opened Serializer

  // ---------- Percent decoding, independently ----------

  predicate IsBytes(s: string) { forall i :: 0 <= i < |s| ==> s[i] as int < 256 }

  /** The bytes that `s[i..]` encodes (section 2.1 of RFC 3986). */
  function Decoded(s: string, i: nat): string
    requires EscapesFrom(s, i)
    decreases |s| - i
  {
    if i >= |s| then ""
    else if s[i] != '%' then [s[i]] + Decoded(s, i + 1)
    else [((16 * DigitOf(s[i + 1]) + DigitOf(s[i + 2])) % 256) as char] + Decoded(s, i + 3)
  }

  lemma {:induction false} DecodedShift(a: string, b: string, k: nat)
    requires k <= |b| && EscapesFrom(b, k)
    ensures EscapesFrom(a + b, |a| + k) && Decoded(a + b, |a| + k) == Decoded(b, k)
    decreases |b| - k
  {
    hide IsHex, DigitOf;
    var s := a + b;
    if k < |b| {
      assert s[|a| + k] == b[k];
      if b[k] != '%' {
        DecodedShift(a, b, k + 1);
      } else {
        assert s[|a| + k + 1] == b[k + 1] && s[|a| + k + 2] == b[k + 2];
        DecodedShift(a, b, k + 3);
      }
    }
  }

  /** A well-escaped text followed by another decodes piece by piece. */
  lemma {:induction false} DecodedGlue(a: string, b: string, i: nat)
    requires i <= |a| && EscapesFrom(a, i) && EscapesFrom(b, 0)
    ensures EscapesFrom(a + b, i) && Decoded(a + b, i) == Decoded(a, i) + Decoded(b, 0)
    decreases |a| - i
  {
    hide IsHex, DigitOf;
    var s := a + b;
    if i == |a| {
      DecodedShift(a, b, 0);
      assert "" + Decoded(b, 0) == Decoded(b, 0);
    } else if a[i] != '%' {
      DecodedGlue(a, b, i + 1);
      Regroup([a[i]], Decoded(a, i + 1), Decoded(b, 0));
    } else {
      DecodedGlue(a, b, i + 3);
      assert s[i + 1] == a[i + 1] && s[i + 2] == a[i + 2];
      Regroup([((16 * DigitOf(a[i + 1]) + DigitOf(a[i + 2])) % 256) as char], Decoded(a, i + 3), Decoded(b, 0));
    }
  }

  lemma HexDigits(d: nat)
    requires d < 16
    ensures DigitOf(HEX[d]) == d && IsHex(HEX[d]) && (IsDigit(HEX[d]) || IsAlpha(HEX[d]))
  {
  }

  lemma OneEscape(e: string)
    requires |e| == 3 && e[0] == '%' && IsHex(e[1]) && IsHex(e[2])
    ensures EscapesFrom(e, 0) && Decoded(e, 0) == [((16 * DigitOf(e[1]) + DigitOf(e[2])) % 256) as char]
  {
    hide IsHex, DigitOf;
    assert EscapesFrom(e, 3) && Decoded(e, 3) == "";
  }

  lemma OneByte(e: string)
    requires |e| == 1 && e[0] != '%'
    ensures EscapesFrom(e, 0) && Decoded(e, 0) == e
  {
    hide IsHex, DigitOf;
    assert EscapesFrom(e, 1) && Decoded(e, 1) == "";
  }

  lemma TwoDigits(n: nat)
    requires n < 256
    ensures n / 16 % 16 == n / 16 && (16 * (n / 16 % 16) + n % 16) % 256 == n
  {
  }

  lemma EscapeDecodes(c: char)
    requires c as int < 256
    ensures EscapesFrom(Escape(c), 0) && Decoded(Escape(c), 0) == [c]
  {
    hide IsHex, DigitOf, EscapesFrom, Decoded;
    if IsUnreserved(c) {
      OneByte(Escape(c));
    } else {
      HexDigits(c as int / 16 % 16);
      HexDigits(c as int % 16);
      OneEscape(Escape(c));
      TwoDigits(c as int);
    }
  }

  lemma NothingDecodes()
    ensures EscapesFrom("", 0) && Decoded("", 0) == ""
  {
  }

  lemma {:induction false} EncodedDecodesUpTo(s: string, n: nat)
    requires n <= |s| && IsBytes(s)
    ensures EscapesFrom(EncodedUpTo(s, n), 0) && Decoded(EncodedUpTo(s, n), 0) == s[..n]
  {
    hide Decoded, EscapesFrom, Escape;
    if n == 0 {
      NothingDecodes();
    } else {
      EncodedDecodesUpTo(s, n - 1);
      EscapeDecodes(s[n - 1]);
      DecodedGlue(EncodedUpTo(s, n - 1), Escape(s[n - 1]), 0);
      assert s[..n - 1] + [s[n - 1]] == s[..n];
    }
  }

  /** Percent encoding is invertible on byte strings. */
  lemma EncodedDecodes(s: string)
    requires IsBytes(s)
    ensures EscapesFrom(Encoded(s), 0) && Decoded(Encoded(s), 0) == s
  {
    EncodedDecodesUpTo(s, |s|);
    assert s[..|s|] == s;
  }

  // ---------- What an encoded text is made of ----------

  predicate IsEncodedChar(c: char) { IsUnreserved(c) || c == '%' }

  predicate AllEncoded(s: string) { forall i :: 0 <= i < |s| ==> IsEncodedChar(s[i]) }

  lemma EscapeChars(c: char)
    ensures AllEncoded(Escape(c))
  {
    HexDigits(c as int / 16 % 16);
    HexDigits(c as int % 16);
  }

  lemma {:induction false} EncodedChars(s: string, n: nat)
    requires n <= |s|
    ensures AllEncoded(EncodedUpTo(s, n))
  {
    hide Escape, IsEncodedChar;
    if n > 0 {
      EncodedChars(s, n - 1);
      EscapeChars(s[n - 1]);
    }
  }

  lemma EncodedLacks(s: string)
    ensures Lacks(Encoded(s), '&') && Lacks(Encoded(s), '=')
  {
    hide EncodedUpTo;
    EncodedChars(s, |s|);
  }

  lemma EncodedIsUrl(s: string)
    ensures AllUrlChars(Encoded(s))
  {
    hide EncodedUpTo;
    EncodedChars(s, |s|);
    forall i | 0 <= i < |Encoded(s)| ensures UrlChar(Encoded(s)[i]) {
      assert IsEncodedChar(Encoded(s)[i]);
    }
  }

  lemma EqualsIsUrl()
    ensures UrlChar('=') && UrlChar('&') && UrlChar('?') && UrlChar('/')
  {
  }

  /** Every character of an appended query is one a URL may hold. */
  lemma PairChars(p: Param)
    ensures Lacks(Pair(p), '&') && AllUrlChars(Pair(p))
  {
    hide Encoded, IsUnreserved, IsForbidden;
    var name, value := Encoded(p.name), Encoded(p.value);
    EncodedLacks(p.name);
    EncodedLacks(p.value);
    EncodedIsUrl(p.name);
    EncodedIsUrl(p.value);
    EqualsIsUrl();
    var t := name + ("=" + value);
    assert forall i :: 0 <= i < |t| ==>
           t[i] == if i < |name| then name[i] else if i == |name| then '=' else value[i - |name| - 1];
  }

  // ---------- Query decoding ----------

  /** One "name=value" item, or None if it is not one. */
  function DecodedPair(item: string): Option<Param> {
    var at := FindChar(item, '=');
    if at < 0 || !EscapesFrom(item[..at], 0) || !EscapesFrom(item[at + 1..], 0) then None
    else Some(Param(Decoded(item[..at], 0), Decoded(item[at + 1..], 0)))
  }

  /** A query read as "name=value" items between '&'s: each item's parameter, in order. */
  function DecodedPairs(query: string): seq<Option<Param>> {
    var items := Split(query, '&');
    seq(|items|, i requires 0 <= i < |items| => DecodedPair(items[i]))
  }

  predicate AreBytes(params: seq<Param>) {
    forall i :: 0 <= i < |params| ==> IsBytes(params[i].name) && IsBytes(params[i].value)
  }

  lemma PairDecodes(p: Param)
    requires IsBytes(p.name) && IsBytes(p.value)
    ensures DecodedPair(Pair(p)) == Some(p)
  {
    hide Encoded, EscapesFrom, Decoded, FindChar;
    EncodedLacks(p.name);
    FindCharAt(Encoded(p.name), '=', Encoded(p.value));
    var item := Pair(p);
    CutAtSeam(Encoded(p.name), "=" + Encoded(p.value));
    CutSum(item, |Encoded(p.name)|, 1);
    CutAtSeam("=", Encoded(p.value));
    EncodedDecodes(p.name);
    EncodedDecodes(p.value);
  }

  /** The appended pairs decode to exactly the parameters, in order, byte for byte. */
  lemma QueryDecodes(params: seq<Param>)
    requires params != [] && AreBytes(params)
    ensures DecodedPairs(Join(Pairs(params), '&')) == seq(|params|, i requires 0 <= i < |params| => Some(params[i]))
  {
    hide Join, Split, DecodedPair, Pair, IsBytes;
    forall i | 0 <= i < |params|
      ensures Lacks(Pairs(params)[i], '&') && DecodedPair(Pairs(params)[i]) == Some(params[i]) {
      PairChars(params[i]);
      PairDecodes(params[i]);
    }
    SplitJoin(Pairs(params), '&');
  }

  lemma SamePairs(head: string, a: string, b: string)
    requires head + a == head + b
    ensures a == b
  {
    CutAtSeam(head, a);
    CutAtSeam(head, b);
  }

  lemma SameOptions(a: seq<Param>, b: seq<Param>)
    requires seq(|a|, i requires 0 <= i < |a| => Some(a[i])) == seq(|b|, i requires 0 <= i < |b| => Some(b[i]))
    ensures a == b
  {
    var sa, sb := seq(|a|, i requires 0 <= i < |a| => Some(a[i])), seq(|b|, i requires 0 <= i < |b| => Some(b[i]));
    assert |sa| == |sb|;
    forall i | 0 <= i < |a| ensures a[i] == b[i] {
      assert sa[i] == sb[i];
    }
  }

  lemma PairsNotEmpty(params: seq<Param>)
    requires params != []
    ensures Join(Pairs(params), '&') != ""
  {
    hide Encoded;
  }

  /** Encoding is injective: two parameter lists that append alike are equal. */
  lemma QueryInjective(text: string, a: seq<Param>, b: seq<Param>)
    requires AreBytes(a) && AreBytes(b) && WithQueryParams(text, a) == WithQueryParams(text, b)
    ensures a == b
  {
    hide Join, Separator, DecodedPairs, IsBytes;
    CutAtSeam(text, Appended(text, a));
    CutAtSeam(text, Appended(text, b));
    if a != [] && b != [] {
      SamePairs(Separator(text), Join(Pairs(a), '&'), Join(Pairs(b), '&'));
      QueryDecodes(a);
      QueryDecodes(b);
      SameOptions(a, b);
    } else if a != [] {
      PairsNotEmpty(a);
    } else if b != [] {
      PairsNotEmpty(b);
    }
  }

  // ---------- Appending to a query that is already there ----------

  /** What follows the first '?', or None. */
  function QueryOf(text: string): Option<string> {
    var mark := FindChar(text, '?');
    if mark < 0 then None else Some(text[mark + 1..])
  }

  /** The items a query holds; a trailing '&' opens none. */
  function Items(query: Option<string>): seq<string> {
    if query.GetOr("") == "" then []
    else
      var q := query.value;
      Split(if q[|q| - 1] == '&' then q[..|q| - 1] else q, '&')
  }

  /** A query with something in it whose last byte is '?': no separator is put after it. */
  predicate EndsInMark(query: Option<string>) {
    query.GetOr("") != "" && query.value[|query.value| - 1] == '?'
  }

  lemma SplitParts(s: string, c: char)
    ensures Join(Split(s, c), c) == s && AllLack(Split(s, c), c)
  {
    JoinSplit(s, 0, c);
    SplitLacks(s, 0, c);
    assert s[0..] == s;
  }

  lemma AllLackConcat(a: seq<string>, b: seq<string>, c: char)
    requires AllLack(a, c) && AllLack(b, c)
    ensures AllLack(a + b, c)
  {
    hide Lacks;
  }

  lemma SplitOfSum(a: string, b: string, c: char)
    ensures Split(a + ([c] + b), c) == Split(a, c) + Split(b, c)
  {
    hide Split, Join;
    SplitParts(a, c);
    SplitParts(b, c);
    JoinAppend(Split(a, c), Split(b, c), c);
    AllLackConcat(Split(a, c), Split(b, c), c);
    SplitJoin(Split(a, c) + Split(b, c), c);
  }

  lemma SplitOfOne(last: string, first: string, rest: seq<string>, c: char)
    ensures Join([last + first] + rest, c) == last + Join([first] + rest, c)
  {
    hide Join;
    if rest == [] {
      assert [last + first] + rest == [last + first] && [first] + rest == [first];
      JoinFew([last + first], c);
      JoinFew([first], c);
    } else {
      JoinCons(last + first, rest, c);
      JoinCons(first, rest, c);
      Regroup(last, first, [c] + Join(rest, c));
    }
  }

  /** Two texts put side by side share an item. */
  lemma SplitOfGlued(a: string, b: string, c: char)
    ensures |Split(a + b, c)| == |Split(a, c)| + |Split(b, c)| - 1
  {
    hide Split, Join;
    var xs, ys := Split(a, c), Split(b, c);
    var front, last := xs[..|xs| - 1], xs[|xs| - 1];
    SplitParts(a, c);
    SplitParts(b, c);
    assert xs == front + [last] && ys == [ys[0]] + ys[1..];
    var all := front + ([last + ys[0]] + ys[1..]);
    SplitOfOne(last, ys[0], ys[1..], c);
    if front == [] {
      assert front + [last] == [last] && all == [last + ys[0]] + ys[1..];
      JoinFew([last], c);
    } else {
      JoinAppend(front, [last], c);
      JoinFew([last], c);
      JoinAppend(front, [last + ys[0]] + ys[1..], c);
      Regroup([c], last, b);
      Regroup(Join(front, c), [c] + last, b);
    }
    LacksGlue(last, ys[0], c);
    SplitJoin(all, c);
  }

  /** The query after the append: what was there, the separator, the pairs. */
  lemma QueryAfter(text: string, extra: string)
    ensures QueryOf(text).Some? ==> QueryOf(text + extra) == Some(QueryOf(text).value + extra)
    ensures QueryOf(text).None? ==> QueryOf(text + ("?" + extra)) == Some(extra)
  {
    hide FindChar;
    var mark := FindChar(text, '?');
    FindCharRun(text, '?');
    if mark >= 0 {
      var before, after := text[..mark], text[mark + 1..];
      assert text == before + ("?" + after);
      Regroup("?", after, extra);
      Regroup(before, "?" + after, extra);
      FindCharAt(before, '?', after + extra);
      CutAround(before, "?", after + extra);
    } else {
      FindCharAt(text, '?', extra);
      CutAround(text, "?", extra);
    }
  }

  /** The separator, told from the query. */
  lemma QueryLast(text: string)
    ensures QueryOf(text).None? ==> Separator(text) == "?"
    ensures QueryOf(text).Some? ==>
            var q := QueryOf(text).value;
            Separator(text) == if q == "" || q[|q| - 1] == '?' || q[|q| - 1] == '&' then "" else "&"
  {
    hide FindChar;
    FoundIsNotLacking(text);
    var mark := FindChar(text, '?');
    if mark >= 0 {
      var q := text[mark + 1..];
      assert q != "" ==> q[|q| - 1] == text[|text| - 1];
    }
  }

  /**
   Appending adds exactly the pairs, as items of their own after the items already there, if and only if
   the query there does not end in '?'. If it does, the first pair is glued to the last item.
   */
  lemma ItemsAppended(text: string, params: seq<Param>)
    requires params != []
    ensures var after := QueryOf(WithQueryParams(text, params));
            after.Some? && (Split(after.value, '&') == Items(QueryOf(text)) + Pairs(params) <==>
              !EndsInMark(QueryOf(text)))
  {
    hide Split, Join, QueryOf, Pair;
    var pairs := Join(Pairs(params), '&');
    var query := QueryOf(text);
    forall i | 0 <= i < |params| ensures Lacks(Pairs(params)[i], '&') {
      PairChars(params[i]);
    }
    SplitJoin(Pairs(params), '&');
    QueryLast(text);
    if query.None? {
      QueryAfter(text, pairs);
      assert [] + Pairs(params) == Pairs(params);
    } else {
      var q := query.value;
      QueryAfter(text, Separator(text) + pairs);
      if q == "" {
        assert "" + ("" + pairs) == pairs;
        assert [] + Pairs(params) == Pairs(params);
      } else if q[|q| - 1] == '&' {
        var front := q[..|q| - 1];
        assert q == front + "&" && "" + pairs == pairs;
        Regroup(front, "&", pairs);
        SplitOfSum(front, pairs, '&');
      } else if q[|q| - 1] == '?' {
        assert "" + pairs == pairs;
        SplitOfGlued(q, pairs, '&');
      } else {
        SplitOfSum(q, pairs, '&');
      }
    }
  }

  lemma GluedPair()
    ensures Join(Pairs([Param("b", "c")]), '&') == "b=c"
  {
    assert EncodedUpTo("b", 1) == EncodedUpTo("b", 0) + Escape('b') == "b";
    assert EncodedUpTo("c", 1) == EncodedUpTo("c", 0) + Escape('c') == "c";
    assert "=" + "c" == "=c";
  }

  lemma MarkedQuery()
    ensures QueryOf("/?a?") == Some("a?") && EndsInMark(QueryOf("/?a?"))
  {
    hide FindChar;
    var text := "/?a?";
    assert text == "/" + (['?'] + "a?");
    FindCharAt("/", '?', "a?");
    assert text[2..] == "a?";
  }

  lemma OneItem()
    ensures Split("a?b=c", '&') == ["a?b=c"]
  {
    hide Until;
    UntilIs("a?b=c", 0, ['&'], 5);
    assert "a?b=c"[0..] == "a?b=c";
  }

  /** Gluing does happen: "/?a?" and the parameter b = c make one item. */
  lemma GluedWitness()
    ensures EndsInMark(QueryOf("/?a?")) && WithQueryParams("/?a?", [Param("b", "c")]) == "/?a?b=c"
    ensures Split("a?b=c", '&') == ["a?b=c"]
  {
    hide FindChar, Split, QueryOf;
    MarkedQuery();
    GluedPair();
    OneItem();
    QueryLast("/?a?");
    assert "" + "b=c" == "b=c";
  }

  // ---------- Appending keeps text valid ----------

  lemma EscapeIsEscaped(c: char)
    ensures EscapesFrom(Escape(c), 0)
  {
    hide IsHex;
    HexDigits(c as int / 16 % 16);
    HexDigits(c as int % 16);
    var e := Escape(c);
    assert IsUnreserved(c) ==> c != '%';
    assert EscapesFrom(e, |e|);
  }

  lemma {:induction false} EncodedIsEscaped(s: string, n: nat)
    requires n <= |s|
    ensures EscapesFrom(EncodedUpTo(s, n), 0)
  {
    hide EscapesFrom, Escape;
    NothingDecodes();
    if n > 0 {
      EncodedIsEscaped(s, n - 1);
      EscapeIsEscaped(s[n - 1]);
      DecodedGlue(EncodedUpTo(s, n - 1), Escape(s[n - 1]), 0);
    }
  }

  lemma OneCharEscaped(c: char)
    requires c != '%'
    ensures EscapesFrom([c], 0)
  {
    assert EscapesFrom([c], 1);
  }

  predicate IsGoodText(s: string) { AllUrlChars(s) && EscapesFrom(s, 0) }

  lemma GoodGlue(a: string, b: string)
    requires IsGoodText(a) && IsGoodText(b)
    ensures IsGoodText(a + b)
  {
    hide EscapesFrom, AllUrlChars;
    DecodedGlue(a, b, 0);
    UrlCharsGlue(a, b);
  }

  lemma NameIsEscaped(s: string)
    ensures EscapesFrom(Encoded(s), 0)
  {
    EncodedIsEscaped(s, |s|);
  }

  lemma GoodPair(p: Param)
    ensures IsGoodText(Pair(p))
  {
    hide EscapesFrom, Encoded;
    PairChars(p);
    NameIsEscaped(p.name);
    NameIsEscaped(p.value);
    OneCharEscaped('=');
    DecodedGlue("=", Encoded(p.value), 0);
    DecodedGlue(Encoded(p.name), "=" + Encoded(p.value), 0);
  }

  lemma GoodPieces()
    ensures IsGoodText("") && IsGoodText("&") && IsGoodText("?")
  {
    hide EscapesFrom;
    NothingDecodes();
    OneCharEscaped('&');
    OneCharEscaped('?');
    EqualsIsUrl();
  }

  lemma {:induction false} GoodJoin(parts: seq<string>)
    requires forall i :: 0 <= i < |parts| ==> IsGoodText(parts[i])
    ensures IsGoodText(Join(parts, '&'))
  {
    hide IsGoodText;
    GoodPieces();
    if |parts| > 1 {
      GoodJoin(parts[1..]);
      GoodGlue("&", Join(parts[1..], '&'));
      GoodGlue(parts[0], "&" + Join(parts[1..], '&'));
    }
  }

  lemma GoodAppended(text: string, params: seq<Param>)
    ensures IsGoodText(Appended(text, params))
  {
    hide IsGoodText, Pair, Join, Lacks;
    GoodPieces();
    forall i | 0 <= i < |params| ensures IsGoodText(Pairs(params)[i]) {
      GoodPair(params[i]);
    }
    GoodJoin(Pairs(params));
    GoodGlue(Separator(text), Join(Pairs(params), '&'));
  }

  /** Appending parameters to a valid text leaves it valid. */
  lemma AppendKeepsEscapes(text: string, params: seq<Param>)
    requires EscapesFrom(text, 0)
    ensures EscapesFrom(WithQueryParams(text, params), 0)
  {
    hide EscapesFrom, Appended;
    GoodAppended(text, params);
    DecodedGlue(text, Appended(text, params), 0);
  }

  // ---------- The commuting square ----------

  lemma LettersOnly(scheme: string)
    requires IEquals(scheme, "http")
    ensures Lacks(scheme + "://", '?')
  {
    var s := scheme + "://";
    assert forall i :: 0 <= i < 4 ==> s[i] == scheme[i] && Lower(scheme[i]) == Lower("http"[i]);
    assert s[4] == ':' && s[5] == '/' && s[6] == '/';
  }

  /** The URL without its fragment: the scheme as written, "://", and what is parsed. */
  lemma UrlShape(url: string) returns (head: string, rest: string)
    requires ParseUrl(url).Ok?
    ensures |head| == 7 && IEquals(head[..4], "http") && head[4..] == "://" && Lacks(head, '?')
    ensures BeforeFragment(url) == head + rest && AllUrlChars(rest) && ParseRest(rest) == ParseUrl(url)
  {
    hide Find, ParseRest, IsForbidden, BeforeFragment;
    FragmentAfterScheme(url);
    var after := url[7..];
    assert forall i :: 0 <= i < |after| ==> after[i] == url[i + 7];
    FragmentGone(after);
    rest := BeforeFragment(after);
    head := url[..4] + "://";
    CutOnce(BeforeFragment(url), 4);
    Regroup(url[..4], "://", rest);
    CutAtSeam(url[..4], "://");
    LettersOnly(url[..4]);
  }

  /** What follows the authority may grow, as long as the authority still ends where it did. */
  lemma RestAppended(rest: string, extra: string)
    requires ParseRest(rest).Ok? && EscapesFrom(extra, 0)
    requires Until(rest, 0, "/?") == |rest| ==> extra == "" || extra[0] == '?'
    ensures var end := Until(rest, 0, "/?");
            && rest[..end] != "" && ParseAuthority(rest[..end]).Ok?
            && ParseRest(rest) == Ok(WithTarget(ParseAuthority(rest[..end]).value, TargetOf(rest[end..])))
            && ParseRest(rest + extra)
               == Ok(WithTarget(ParseAuthority(rest[..end]).value, TargetOf(rest[end..]) + extra))
  {
    hide ParseAuthority, Until, EscapesFrom, WithTarget;
    var end := Until(rest, 0, "/?");
    var authority, tail := rest[..end], rest[end..];
    UntilRun(rest, 0, "/?");
    CutOnce(rest, end);
    Regroup(authority, tail, extra);
    UntilAt(authority, tail + extra, "/?");
    CutAtSeam(authority, tail + extra);
    Regroup("/", tail, extra);
    assert "/" + "" == "/" && "" + extra == extra;
    DecodedGlue(TargetOf(tail), extra, 0);
  }

  lemma SeparatorOfTail(front: string, tail: string)
    requires Lacks(front, '?')
    ensures Separator(front + tail) == if tail == "" then "?" else Separator(tail)
  {
    hide Lacks;
    LacksGlue(front, tail, '?');
    if tail != "" {
      var s := front + tail;
      assert s[|s| - 1] == tail[|tail| - 1];
    } else {
      assert front + tail == front;
    }
  }

  lemma SameSeparator(front: string, tail: string, target: string)
    requires Lacks(front, '?') && target == TargetOf(tail)
    ensures Separator(front + tail) == Separator(target)
  {
    hide Separator;
    SeparatorOfTail(front, tail);
    SeparatorOfTail("/", tail);
  }

  lemma FrontLacks(head: string, rest: string)
    requires Lacks(head, '?')
    ensures Lacks(head + rest[..Until(rest, 0, "/?")], '?')
  {
    UntilRun(rest, 0, "/?");
    var front := rest[..Until(rest, 0, "/?")];
    assert "/?"[1] == '?';
    assert forall i :: 0 <= i < |front| ==> front[i] == rest[i];
  }

  lemma TailChars(rest: string, end: nat)
    requires AllUrlChars(rest) && end == Until(rest, 0, "/?")
    ensures AllUrlChars(rest[end..]) && (end < |rest| ==> rest[end..][0] == '/' || rest[end..][0] == '?')
    ensures rest[end..] == "" || rest[end..][0] == '/' || rest[end..][0] == '?'
  {
    hide UrlChar, Until;
  }

  lemma TargetStays(target: string, extra: string)
    requires AllUrlChars(target) && AllUrlChars(extra) && target != "" && target[0] == '/'
    ensures AllUrlChars(target + extra) && target + extra != "" && (target + extra)[0] == '/'
  {
    hide AllUrlChars;
    UrlCharsGlue(target, extra);
  }

  lemma SameAppended(a: string, b: string, params: seq<Param>)
    requires Separator(a) == Separator(b)
    ensures Appended(a, params) == Appended(b, params)
  {
  }

  lemma AppendedStart(text: string, params: seq<Param>)
    ensures Lacks(text, '?') ==> Appended(text, params) == "" || Appended(text, params)[0] == '?'
  {
    hide Join;
  }

  /**
   Appending to the URL is appending to the target: the effective URL parses, to the same authority,
   and its target is byte for byte the one the request line carries.
   */
  lemma AppendCommutes(r: Request)
    requires ParseUrl(r.url).Ok?
    ensures var p, q := ParseUrl(r.url).value, ParseUrl(EffectiveUrl(r));
            && q.Ok? && q.value.Target() == WithQueryParams(p.Target(), r.params)
            && q.value.host == p.host && q.value.port == p.port
            && q.value.explicitPort == p.explicitPort && q.value.ipv6 == p.ipv6
  {
    hide ParseUrl, ParseRest, ParseAuthority, EscapesFrom, WithTarget, Until, Appended, BeforeFragment, AllUrlChars,
         Parts.Target;
    var head, rest := UrlShape(r.url);
    var end := Until(rest, 0, "/?");
    var tail := rest[end..];
    var target := TargetOf(tail);
    var base := head + rest;
    var extra := Appended(base, r.params);
    FrontLacks(head, rest);
    CutOnce(rest, end);
    Regroup(head, rest[..end], tail);
    SameSeparator(head + rest[..end], tail, target);
    SameAppended(base, target, r.params);
    GoodAppended(base, r.params);
    AppendedStart(base, r.params);
    if end == |rest| {
      assert tail == "";
      assert head + rest[..end] + "" == head + rest[..end];
    }
    RestAppended(rest, extra);
    Regroup(head, rest, extra);
    UrlCharsGlue(rest, extra);
    ParseAfterScheme(head, rest + extra);
    var a := ParseAuthority(rest[..end]).value;
    TailChars(rest, end);
    TargetValid(tail);
    TargetStays(target, extra);
    WithTargetValid(a, target);
    WithTargetValid(a, target + extra);
    WithTargetKeeps(a, target);
    WithTargetKeeps(a, target + extra);
  }

  // ---------- The fields on the wire ----------

  predicate GoodField(f: Field) { IsToken(f.name) && IsFieldText(f.value) }

  predicate GoodFields(headers: Headers) { forall i :: 0 <= i < |headers| ==> GoodField(headers[i]) }

  /** A request field the library lets through. */
  predicate AcceptableField(f: Field) {
    && GoodField(f)
    && (Named(f, "Host") ==> f.value != "")
    && (Named(f, "Content-Length") ==> Number(f.value, 10).Some?)
    && !Named(f, "Transfer-Encoding")
  }

  predicate AcceptableFields(headers: Headers) { forall i :: 0 <= i < |headers| ==> AcceptableField(headers[i]) }

  lemma FieldProblemExact(f: Field)
    ensures FieldProblem(f).None? <==> AcceptableField(f)
  {
    hide Named, Number, IsToken, IsFieldText;
    NamesDiffer(f);
  }

  lemma {:induction false} FirstProblemExact(headers: Headers, n: nat)
    requires n <= |headers|
    ensures FirstProblem(headers, n).None? <==> forall i :: n <= i < |headers| ==> AcceptableField(headers[i])
    decreases |headers| - n
  {
    hide FieldProblem, AcceptableField;
    if n < |headers| {
      FieldProblemExact(headers[n]);
      FirstProblemExact(headers, n + 1);
    }
  }

  /** Exactly the requests with acceptable fields, one Host at most and one truthful Content-Length at most. */
  predicate Acceptable(r: Request) {
    var lengths := Values(r.headers, "Content-Length");
    && AcceptableFields(r.headers) && |Values(r.headers, "Host")| <= 1
    && (lengths == [] || (|lengths| == 1 && Number(lengths[0], 10).GetOr(0) == |r.body|))
  }

  lemma AcceptableExact(r: Request)
    ensures Serialized(r).Ok? <==> ParseUrl(r.url).Ok? && Acceptable(r)
  {
    hide ParseUrl, AcceptableField, FirstProblem, Number, Values, HeadLines, LinesThen;
    FirstProblemExact(r.headers, 0);
  }

  lemma Regrouped(a: seq<string>, b: seq<string>, c: seq<string>)
    ensures (a + b) + c == a + (b + c)
  {
  }

  lemma {:induction false} ValuesFront(a: Headers, b: Headers, n: nat, name: string)
    requires n <= |a|
    ensures ValuesUpTo(a + b, n, name) == ValuesUpTo(a, n, name)
  {
    hide Named;
    if n > 0 {
      ValuesFront(a, b, n - 1, name);
    }
  }

  lemma {:induction false} ValuesGlue(a: Headers, b: Headers, n: nat, name: string)
    requires n <= |b|
    ensures ValuesUpTo(a + b, |a| + n, name) == Values(a, name) + ValuesUpTo(b, n, name)
  {
    hide Named;
    if n == 0 {
      ValuesFront(a, b, |a|, name);
      assert Values(a, name) + [] == Values(a, name);
    } else {
      ValuesGlue(a, b, n - 1, name);
      assert (a + b)[|a| + n - 1] == b[n - 1];
      Regrouped(Values(a, name), ValuesUpTo(b, n - 1, name), if Named(b[n - 1], name) then [b[n - 1].value] else []);
    }
  }

  lemma ValuesConcat(a: Headers, b: Headers, name: string)
    ensures Values(a + b, name) == Values(a, name) + Values(b, name)
  {
    hide ValuesUpTo;
    ValuesGlue(a, b, |b|, name);
  }

  lemma ValuesOfFew(f: Field, name: string)
    ensures Values([], name) == [] && Values([f], name) == if Named(f, name) then [f.value] else []
  {
    hide Named;
    assert ValuesUpTo([f], 1, name) == ValuesUpTo([f], 0, name) + if Named(f, name) then [f.value] else [];
  }

  lemma GeneratedNames(host: string, length: string)
    ensures Named(Field("Host", host), "Host") && !Named(Field("Host", host), "Content-Length") &&
            !Named(Field("Host", host), "Transfer-Encoding")
    ensures Named(Field("Content-Length", length), "Content-Length")
    ensures !Named(Field("Content-Length", length), "Host") &&
            !Named(Field("Content-Length", length), "Transfer-Encoding")
    ensures IsToken("Host") && IsToken("Content-Length")
  {
  }

  lemma WireValues(r: Request, p: Parts, name: string)
    ensures Values(WireFields(r, p), name)
            == Values(WireHost(r, p), name) + (Values(r.headers, name) + Values(WireLength(r), name))
  {
    hide Values;
    ValuesConcat(WireHost(r, p), r.headers + WireLength(r), name);
    ValuesConcat(r.headers, WireLength(r), name);
  }

  lemma AllValues(headers: Headers, name: string)
    ensures Values(headers, name) == ValuesUpTo(headers, |headers|, name)
  {
  }

  predicate AreNumbers(texts: seq<string>) { forall i :: 0 <= i < |texts| ==> Number(texts[i], 10).Some? }

  lemma AreNumbersMore(texts: seq<string>, one: string)
    requires AreNumbers(texts) && Number(one, 10).Some?
    ensures AreNumbers(texts + [one])
  {
    hide Number;
  }

  lemma {:induction false} LengthsAreNumbers(headers: Headers, n: nat)
    requires n <= |headers| && AcceptableFields(headers)
    ensures AreNumbers(ValuesUpTo(headers, n, "Content-Length"))
  {
    hide Named, Number, GoodField;
    if n > 0 {
      var before, f := ValuesUpTo(headers, n - 1, "Content-Length"), headers[n - 1];
      LengthsAreNumbers(headers, n - 1);
      assert AcceptableField(f);
      if Named(f, "Content-Length") {
        AreNumbersMore(before, f.value);
      } else {
        assert before + [] == before;
      }
    }
  }

  /** On the wire: exactly one Host, at most one Content-Length, and its value is the size of the body. */
  lemma WireFraming(r: Request, p: Parts)
    requires Acceptable(r) && |r.body| <= SIZE_MAX
    ensures |Values(WireFields(r, p), "Host")| == 1
    ensures var lengths := Values(WireFields(r, p), "Content-Length");
            |lengths| <= 1 && (lengths == [] ==> r.body == "") &&
              (lengths != [] ==> Number(lengths[0], 10) == Some(|r.body|))
  {
    hide Values, Numeral, Number, HostPort, IsFieldText, IsToken;
    var host, length := Field("Host", HostPort(p)), Field("Content-Length", Numeral(|r.body|, 10));
    WireValues(r, p, "Host");
    WireValues(r, p, "Content-Length");
    GeneratedNames(host.value, length.value);
    ValuesOfFew(host, "Host");
    ValuesOfFew(host, "Content-Length");
    ValuesOfFew(length, "Host");
    ValuesOfFew(length, "Content-Length");
    NumeralRoundTrip(|r.body|, 10);
    LengthsAreNumbers(r.headers, |r.headers|);
    assert Values(r.headers, "Content-Length")
           == ValuesUpTo(r.headers, |r.headers|, "Content-Length") by { AllValues(r.headers, "Content-Length"); }
  }

  lemma HostIsFieldText(p: Parts)
    requires ValidParts(p)
    ensures IsFieldText(HostPort(p))
  {
    hide HostPort, ValidAuthority, EscapesFrom;
    HostPortChars(p);
    var h := HostPort(p);
    forall i | 0 <= i < |h| ensures IsFieldChar(h[i]) {
      assert HostChar(h[i]);
    }
  }

  lemma NumeralIsFieldText(n: nat)
    ensures IsFieldText(Numeral(n, 10))
  {
    hide Numeral, NatOf, DigitOf, IsTchar;
    NumeralDenotes(n, 10);
    var s := Numeral(n, 10);
    assert forall i :: 0 <= i < |s| ==> IsDigit(s[i]);
  }

  lemma GoodConcat(a: Headers, b: Headers)
    requires GoodFields(a) && GoodFields(b)
    ensures GoodFields(a + b)
  {
    hide GoodField;
  }

  lemma NoFieldsNoHost()
    ensures Values([], "Host") == []
  {
  }

  lemma WireIsGood(r: Request, p: Parts)
    requires ValidParts(p) && AcceptableFields(r.headers)
    ensures GoodFields(WireFields(r, p)) && WireFields(r, p) != []
  {
    hide Values, HostPort, Numeral, ValidParts, Named, Number, IsToken, IsFieldText;
    HostIsFieldText(p);
    NumeralIsFieldText(|r.body|);
    GeneratedNames(HostPort(p), "");
    forall i | 0 <= i < |r.headers| ensures GoodField(r.headers[i]) {
      assert AcceptableField(r.headers[i]);
    }
    GoodConcat(r.headers, WireLength(r));
    GoodConcat(WireHost(r, p), r.headers + WireLength(r));
    NoFieldsNoHost();
  }

  /**
   The fields on the wire, in order: a Host for the URL's host and port if none is given, those given, and a
   Content-Length for the body if none is given and there is a body or the method may well have one.
   */
  ghost function FieldsOnWire(r: Request, p: Parts): Headers {
    (if Has(r.headers, "Host") then [] else [Field("Host", HostPort(p))]) +
    (r.headers +
    if Has(r.headers, "Content-Length") || (r.body == "" && r.verb !in {Post, Put, Patch}) then []
    else [Field("Content-Length", Numeral(|r.body|, 10))])
  }

  lemma WireFieldsAre(r: Request, p: Parts)
    ensures WireFields(r, p) == FieldsOnWire(r, p)
  {
    hide Named, ValuesUpTo, Numeral, HostPort;
    ValuesCounted(r.headers, |r.headers|, "Host");
    ValuesCounted(r.headers, |r.headers|, "Content-Length");
  }

  // ---------- Requests that are refused ----------

  /** A field that may not be sent, and its code. */
  predicate IsBadRequestField(f: Field, e: ErrorCode) {
    if !IsToken(f.name) || !IsFieldText(f.value) then e == InvalidHeader
    else || (Named(f, "Host") && f.value == "" && e == InvalidHeader)
         || (Named(f, "Content-Length") && Number(f.value, 10).None? && e == InvalidContentLength)
         || (Named(f, "Transfer-Encoding") && e == ConflictingMessageFraming)
  }

  ghost predicate MaySend(f: Field) { forall e :: !IsBadRequestField(f, e) }

  ghost predicate IsTwice(headers: Headers, name: string) {
    exists i, j :: 0 <= i < j < |headers| && Named(headers[i], name) && Named(headers[j], name)
  }

  /** Some Content-Length is not the size of the body. */
  predicate IsUntrue(r: Request) {
    exists i :: && 0 <= i < |r.headers| && Named(r.headers[i], "Content-Length")
                && Number(r.headers[i].value, 10) != Some(|r.body|)
  }

  /** The first field that may not be sent, or a second Host, or a second or an untrue Content-Length. */
  ghost predicate IsBadRequest(r: Request, e: ErrorCode) {
    if exists i :: 0 <= i < |r.headers| && !MaySend(r.headers[i])
    then exists i :: && 0 <= i < |r.headers| && IsBadRequestField(r.headers[i], e)
                     && forall j :: 0 <= j < i ==> MaySend(r.headers[j])
    else if IsTwice(r.headers, "Host") then e == InvalidHeader
    else if IsTwice(r.headers, "Content-Length") then e == InvalidContentLength
    else IsUntrue(r) && e == InvalidContentLength
  }

  lemma FieldProblemIs(f: Field)
    ensures FieldProblem(f).None? <==> MaySend(f)
    ensures forall e :: FieldProblem(f) == Some(e) <==> IsBadRequestField(f, e)
  {
    hide IEquals, Number, IsToken, IsFieldText;
    NamesDiffer(f);
    assert FieldProblem(f).Some? ==> IsBadRequestField(f, FieldProblem(f).value);
  }

  lemma BadMayNot(f: Field)
    ensures forall e :: IsBadRequestField(f, e) ==> !MaySend(f)
  {
    hide IsBadRequestField;
  }

  lemma {:induction false} FirstProblemIs(headers: Headers, n: nat)
    requires n <= |headers|
    ensures FirstProblem(headers, n).None? <==> forall i :: n <= i < |headers| ==> MaySend(headers[i])
    ensures forall e ::
              FirstProblem(headers, n) == Some(e) <==>
              exists i :: n <= i < |headers| && IsBadRequestField(headers[i], e) &&
                          forall j :: n <= j < i ==> MaySend(headers[j])
    decreases |headers| - n
  {
    hide FieldProblem, IsBadRequestField, MaySend;
    if n < |headers| {
      FieldProblemIs(headers[n]);
      BadMayNot(headers[n]);
      FirstProblemIs(headers, n + 1);
      var rest := FirstProblem(headers, n + 1);
      if FieldProblem(headers[n]).None? && rest.Some? {
        var i :| n + 1 <= i < |headers| && IsBadRequestField(headers[i], rest.value) &&
          forall j :: n + 1 <= j < i ==> MaySend(headers[j]);
        assert n <= i < |headers| && forall j :: n <= j < i ==> MaySend(headers[j]);
      }
    }
  }

  lemma LengthIsNumber(f: Field)
    requires MaySend(f) && Named(f, "Content-Length")
    ensures Number(f.value, 10).Some?
  {
    hide IEquals, Number, IsToken, IsFieldText;
    assert !IsBadRequestField(f, InvalidHeader) && !IsBadRequestField(f, InvalidContentLength);
  }

  lemma TwiceIs(headers: Headers, name: string)
    ensures IsTwice(headers, name) <==> |Values(headers, name)| > 1
  {
    hide Named, ValuesUpTo;
    ValuesCounted(headers, |headers|, name);
  }

  lemma UntrueIs(r: Request)
    requires !IsTwice(r.headers, "Content-Length") && forall i :: 0 <= i < |r.headers| ==> MaySend(r.headers[i])
    ensures var lengths := Values(r.headers, "Content-Length");
            IsUntrue(r) <==> |lengths| == 1 && LastNumber(lengths) != |r.body|
  {
    hide Named, ValuesUpTo, Number, MaySend;
    ValuesCounted(r.headers, |r.headers|, "Content-Length");
    forall i | 0 <= i < |r.headers| && Named(r.headers[i], "Content-Length")
      ensures Number(r.headers[i].value, 10).Some?
    {
      LengthIsNumber(r.headers[i]);
    }
    if |Values(r.headers, "Content-Length")| == 1 {
      var i :| 0 <= i < |r.headers| && Named(r.headers[i], "Content-Length");
    }
  }

  lemma ProblemIs(r: Request, e: ErrorCode)
    ensures Problem(r) == Some(e) <==> IsBadRequest(r, e)
  {
    hide Values, LastNumber, FirstProblem, IsBadRequestField, MaySend, IsUntrue, IsTwice;
    FirstProblemIs(r.headers, 0);
    TwiceIs(r.headers, "Host");
    TwiceIs(r.headers, "Content-Length");
    if !IsTwice(r.headers, "Content-Length") && forall i :: 0 <= i < |r.headers| ==> MaySend(r.headers[i]) {
      UntrueIs(r);
    }
  }

  /** A request is refused with a code exactly if its URL fails with it, or it is bad with it. */
  lemma RefusedRequest(r: Request, e: ErrorCode)
    ensures Serialized(r) == Err(e) <==> ParseUrl(r.url) == Err(e) || (ParseUrl(r.url).Ok? && IsBadRequest(r, e))
  {
    hide ParseUrl, Problem, IsBadRequest, HeadLines, LinesThen;
    ProblemIs(r, e);
  }

  // ---------- The head reads back ----------

  datatype RequestHead = RequestHead(verb: Method, target: string, fields: Headers)

  /** The method of that name: section 9 of RFC 9110, and RFC 5789. */
  function MethodOf(name: string): Option<Method> {
    if name == "GET" then Some(Get)
    else if name == "HEAD" then Some(Method.Head)
    else if name == "POST" then Some(Post)
    else if name == "PUT" then Some(Put)
    else if name == "PATCH" then Some(Patch)
    else if name == "DELETE" then Some(Delete)
    else None
  }

  /** method SP request-target SP HTTP-version: section 3 of RFC 9112. */
  function ParseRequestLine(line: string): Option<(Method, string)> {
    var first := FindChar(line, ' ');
    if first < 0 then None
    else
      var rest := line[first + 1..];
      var second := FindChar(rest, ' ');
      if second < 0 || rest[second + 1..] != "HTTP/1.1" then None
      else match MethodOf(line[..first])
        case None => None
        case Some(verb) => Some((verb, rest[..second]))
  }

  /** A request head, which must end at its first empty line. */
  function ParseRequestHead(head: string): Option<RequestHead> {
    var end := Find(head, BLANK_LINE);
    if end < 0 || end + 4 != |head| then None
    else
      var block := head[..end];
      var first := Find(block, CRLF);
      if first < 0 then None
      else match (ParseRequestLine(block[..first]), ParseFields(block, first + 2))
        case (Some(line), Ok(fields)) => Some(RequestHead(line.0, line.1, fields))
        case _ => None
  }

  function TrimmedFields(headers: Headers): Headers {
    seq(|headers|, i requires 0 <= i < |headers| => Field(headers[i].name, Trimmed(headers[i].value)))
  }

  lemma FieldLineReads(f: Field)
    requires GoodField(f)
    ensures IsFieldLine(FieldLine(f), Field(f.name, Trimmed(f.value)))
  {
    hide IsTchar, OwsEnd, OwsStart, IsFieldChar;
    var w, v := TrimmedParts(f.value);
    TrimmedIsTrimmed(f.value);
    var pad := " " + w;
    var t := Trimmed(f.value);
    Regroup(" ", w, t);
    Regroup(" ", w + t, v);
    assert ": " == ":" + " ";
    Regroup(":", " ", f.value);
    assert FieldLineParts(FieldLine(f), Field(f.name, t), pad, v);
  }

  lemma FieldLinesRead(headers: Headers)
    requires GoodFields(headers)
    ensures AreFieldLines(FieldLines(headers), TrimmedFields(headers)) && AreLines(FieldLines(headers))
  {
    hide IsFieldLine, FieldLine, Trimmed, GoodField, Find;
    forall i | 0 <= i < |headers| ensures IsFieldLine(FieldLines(headers)[i], TrimmedFields(headers)[i])
                                          && FieldLines(headers)[i] != "" && Find(FieldLines(headers)[i], CRLF) < 0 {
      FieldLineReads(headers[i]);
      FieldLineComplete(FieldLines(headers)[i], TrimmedFields(headers)[i]);
    }
  }

  lemma MethodReads(m: Method)
    ensures MethodOf(MethodToken(m)) == Some(m)
  {
  }

  lemma VerbChars(m: Method)
    ensures MethodToken(m) != "" && Lacks(MethodToken(m), ' ') && Lacks(MethodToken(m), '\r')
  {
  }

  lemma TargetLacks(target: string)
    requires AllUrlChars(target)
    ensures Lacks(target, ' ') && Lacks(target, '\r')
  {
    forall i | 0 <= i < |target| ensures target[i] != ' ' && target[i] != '\r' {
      assert UrlChar(target[i]);
    }
  }

  lemma RequestLineReads(m: Method, target: string)
    requires AllUrlChars(target)
    ensures var line := RequestLine(m, target);
            line != "" && Find(line, CRLF) < 0 && ParseRequestLine(line) == Some((m, target))
  {
    hide Find, FindChar, MethodToken, MethodOf;
    MethodReads(m);
    var verb, rest := MethodToken(m), target + " HTTP/1.1";
    VerbChars(m);
    TargetLacks(target);
    FindCharAt(verb, ' ', rest);
    FindCharAt(target, ' ', "HTTP/1.1");
    assert " HTTP/1.1" == " " + "HTTP/1.1";
    CutAround(verb, " ", rest);
    CutAround(target, " ", "HTTP/1.1");
    LacksGlue(target, " HTTP/1.1", '\r');
    LacksGlue(" ", rest, '\r');
    LacksGlue(verb, " " + rest, '\r');
    NoCrNoCrlf(verb + (" " + rest));
  }

  /** Lines that make a head read back as the request line and the fields they print. */
  lemma LinesRead(line: string, fieldLines: seq<string>, fields: Headers)
    requires line != "" && Find(line, CRLF) < 0 && ParseRequestLine(line).Some?
    requires fieldLines != [] && AreFieldLines(fieldLines, fields) && AreLines(fieldLines)
    ensures var head := LinesThen([line] + fieldLines, CRLF);
            && |head| >= 4 && Find(head, BLANK_LINE) == |head| - 4
            && ParseRequestHead(head)
               == Some(RequestHead(ParseRequestLine(line).value.0, ParseRequestLine(line).value.1, fields))
  {
    hide Find, ParseRequestLine, ParseFields, IsFieldLine, LinesThen, LinesSize;
    var lines := [line] + fieldLines;
    assert lines[1..] == fieldLines;
    var head := LinesThen(lines, CRLF);
    assert CRLF + "" == CRLF && BLANK_LINE + "" == BLANK_LINE;
    BlankLineAfter(lines, "");
    JoinedThen(lines, "");
    var block := Joined(lines);
    CutAtSeam(block, BLANK_LINE);
    FindLine(line, Joined(fieldLines));
    CutLine(line, Joined(fieldLines));
    FieldsComplete(block, |line| + 2, fieldLines, fields);
  }

  lemma FieldLinesNotEmpty(headers: Headers)
    requires headers != []
    ensures FieldLines(headers) != []
  {
  }

  lemma AcceptableMeans(r: Request)
    ensures Acceptable(r) ==> AcceptableFields(r.headers)
  {
  }

  /**
   Head round trip: an accepted request's head reads back to its method, its target and its fields in
   order, values without surrounding whitespace; and the empty line that ends it is the only one.
   */
  lemma HeadRoundTrip(r: Request)
    requires Serialized(r).Ok?
    ensures var p, head := ParseUrl(r.url).value, Serialized(r).value.head;
            && |head| >= 4 && Find(head, BLANK_LINE) == |head| - 4
            && ParseRequestHead(head) == Some(RequestHead(
                 r.verb, WithQueryParams(p.Target(), r.params), TrimmedFields(FieldsOnWire(r, p))))
  {
    hide ParseUrl, Find, LinesThen, WireFields, FieldsOnWire, ParseRequestHead, MethodToken, Problem, RequestLine,
         Appended,
         Parts.Target,
         FieldLines, Acceptable, ParseRequestLine, AreFieldLines, AreLines, TrimmedFields;
    AcceptableExact(r);
    AcceptableMeans(r);
    ParseValid(r.url);
    var p := ParseUrl(r.url).value;
    var target := WithQueryParams(p.Target(), r.params);
    TargetParses(p);
    GoodAppended(p.Target(), r.params);
    UrlCharsGlue(p.Target(), Appended(p.Target(), r.params));
    RequestLineReads(r.verb, target);
    WireIsGood(r, p);
    WireFieldsAre(r, p);
    FieldLinesRead(WireFields(r, p));
    FieldLinesNotEmpty(WireFields(r, p));
    LinesRead(RequestLine(r.verb, target), FieldLines(WireFields(r, p)), TrimmedFields(WireFields(r, p)));
  }

  // ---------- A stream of requests reads back ----------

  datatype RequestText = RequestText(head: RequestHead, body: string)

  /** How many body bytes follow a head: section 6.3 of RFC 9112, for requests without transfer codings. */
  function BodyLength(fields: Headers): Option<nat> {
    var lengths := Values(fields, "Content-Length");
    if lengths == [] then Some(0) else Number(lengths[0], 10)
  }

  /** One request: the head up to the first empty line, as many body bytes as it says, and what is left. */
  function ReadRequest(stream: string): (r: Option<(RequestText, string)>)
    ensures r.Some? ==> |r.value.1| < |stream|
  {
    var end := Find(stream, BLANK_LINE);
    if end < 0 then None
    else
      var rest := stream[end + 4..];
      match ParseRequestHead(stream[..end + 4])
      case None => None
      case Some(head) =>
        var length := BodyLength(head.fields).GetOr(|rest| + 1);
        if length > |rest| then None else Some((RequestText(head, rest[..length]), rest[length..]))
  }

  /** The requests on a stream, or None if anything is left over that is not one. */
  function ReadRequests(stream: string): Option<seq<RequestText>>
    decreases |stream|
  {
    if stream == "" then Some([])
    else match ReadRequest(stream)
      case None => None
      case Some((first, rest)) =>
        match ReadRequests(rest)
        case None => None
        case Some(more) => Some([first] + more)
  }

  /** What a reader makes of a request: method, target, the fields on the wire with their values trimmed, the body. */
  ghost function TextOf(r: Request): RequestText
    requires Serialized(r).Ok?
  {
    var p := Serialized(r).value.parts;
    RequestText(
      RequestHead(r.verb, WithQueryParams(p.Target(), r.params), TrimmedFields(FieldsOnWire(r, p))),
      r.body)
  }

  lemma NumberIsTrimmed(s: string)
    requires Number(s, 10).Some?
    ensures Trimmed(s) == s
  {
    hide NatOf, Trimmed;
    assert IsDigit(s[0]) && IsDigit(s[|s| - 1]);
    TrimmedUnique("", s, "");
    assert "" + s + "" == s;
  }

  function TrimmedTexts(texts: seq<string>): seq<string> {
    seq(|texts|, i requires 0 <= i < |texts| => Trimmed(texts[i]))
  }

  lemma SameName(a: Field, b: Field, name: string)
    requires a.name == b.name
    ensures Named(a, name) == Named(b, name)
  {
  }

  lemma {:induction false} TrimmedValues(headers: Headers, n: nat, name: string)
    requires n <= |headers|
    ensures ValuesUpTo(TrimmedFields(headers), n, name) == TrimmedTexts(ValuesUpTo(headers, n, name))
  {
    hide Trimmed, Named;
    if n > 0 {
      TrimmedValues(headers, n - 1, name);
      SameName(headers[n - 1], TrimmedFields(headers)[n - 1], name);
    }
  }

  /** The length a reader finds in a printed head is that of the body. */
  lemma WireLengthReads(r: Request, p: Parts)
    requires Acceptable(r) && |r.body| <= SIZE_MAX
    ensures BodyLength(TrimmedFields(WireFields(r, p))) == Some(|r.body|)
  {
    hide Acceptable, WireFields, ValuesUpTo, Number, Trimmed;
    var fields := WireFields(r, p);
    WireFraming(r, p);
    TrimmedValues(fields, |fields|, "Content-Length");
    AllValues(fields, "Content-Length");
    AllValues(TrimmedFields(fields), "Content-Length");
    var lengths := Values(fields, "Content-Length");
    if lengths != [] {
      NumberIsTrimmed(lengths[0]);
    }
  }

  /** A printed request is read off the front of any stream. */
  lemma RequestReads(r: Request, rest: string)
    requires Serialized(r).Ok? && |r.body| <= SIZE_MAX
    ensures ReadRequest(Serialized(r).value.Bytes() + rest) == Some((TextOf(r), rest))
  {
    hide Find, ParseRequestHead, BodyLength, WireFields, FieldsOnWire, TrimmedFields, ParseUrl, Problem, HeadLines,
         LinesThen,
         WithQueryParams, Acceptable, MethodToken;
    var wire := Serialized(r).value;
    HeadRoundTrip(r);
    AcceptableExact(r);
    WireFieldsAre(r, wire.parts);
    WireLengthReads(r, wire.parts);
    Regroup(wire.head, wire.body, rest);
    FindExtend(wire.head, wire.body + rest, BLANK_LINE);
    CutAtSeam(wire.head, wire.body + rest);
    CutAtSeam(wire.body, rest);
  }
}
