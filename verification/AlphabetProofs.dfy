/** The character classes and the small texts everything is made of, against the lists the standards give: tokens and
 field values (section 5.6 of RFC 9110), unreserved characters and escapes (sections 2.1 and 2.3 of RFC 3986),
 schemes (section 3.1 there), letters, digits and their values. */
module AlphabetProofs {
  import opened Text
  import opened ChunkLine
  import opened Heads
  import opened Urls
  import opened Redirects
  import opened Serializer

  const UPPER := "ABCDEFGHIJKLMNOPQRSTUVWXYZ"
  const LOWER := "abcdefghijklmnopqrstuvwxyz"
  const DECIMAL := "0123456789"
  const DELIMITERS := "\"(),/:;<=>?@[\\]{}"

  lemma UpperExact(c: char)
    ensures 'A' <= c <= 'Z' <==> c in UPPER
  {
    if 'A' <= c <= 'Z' {
      assert c == UPPER[c as int - 'A' as int];
    }
  }

  lemma SmallExact(c: char)
    ensures 'a' <= c <= 'z' <==> c in LOWER
  {
    if 'a' <= c <= 'z' {
      assert c == LOWER[c as int - 'a' as int];
    }
  }

  lemma LetterExact(c: char)
    ensures IsAlpha(c) <==> c in UPPER || c in LOWER
    ensures IsDigit(c) <==> c in DECIMAL
  {
    UpperExact(c);
    SmallExact(c);
    if IsDigit(c) {
      assert c == DECIMAL[c as int - '0' as int];
    }
  }

  /** A token character is any visible one but the delimiters. */
  lemma TokenCharExact(c: char)
    ensures IsTchar(c) <==> 0x21 <= c as int <= 0x7e && c !in DELIMITERS
  {
  }

  /** A field character is anything but the controls, and HTAB is not one of them. */
  lemma FieldCharExact(c: char)
    ensures !IsFieldChar(c) <==> (c as int < 0x20 && c != '\t') || c as int == 0x7f
    ensures IsOws(c) <==> c in " \t"
  {
  }

  /** Quoted text is field text without the quote and the backslash; after a backslash any of it may stand. */
  lemma QuotedCharExact(c: char)
    ensures IsQdtext(c) <==> IsFieldChar(c) && c !in "\"\\"
    ensures IsQuotedPairChar(c) <==> IsFieldChar(c)
  {
  }

  lemma UnreservedExact(c: char)
    ensures IsUnreserved(c) <==> c in UPPER || c in LOWER || c in DECIMAL || c in "-._~"
  {
    hide IsAlpha, IsDigit;
    LetterExact(c);
  }

  lemma SchemeCharExact(c: char)
    ensures IsSchemeChar(c) <==> c in UPPER || c in LOWER || c in DECIMAL || c in "+-."
  {
    hide IsAlpha, IsDigit;
    LetterExact(c);
  }

  lemma ForbiddenExact(c: char)
    ensures IsForbidden(c) <==> c as int <= 0x20 || c as int == 0x7f
  {
  }

  /** Each capital has its small letter, and nothing else changes. */
  lemma LowerExact(c: char)
    ensures forall k :: 0 <= k < 26 && c == UPPER[k] ==> Lower(c) == LOWER[k]
    ensures c !in UPPER ==> Lower(c) == c
  {
    if 'A' <= c <= 'Z' {
      assert c == UPPER[c as int - 'A' as int];
    }
  }

  lemma DigitValue(c: char, k: nat)
    ensures k < 10 && c == DECIMAL[k] ==> DigitOf(c) == k
    ensures k < 6 && c == UPPER[k] ==> DigitOf(c) == 10 + k
    ensures k < 6 && c == LOWER[k] ==> DigitOf(c) == 10 + k
  {
  }

  /** The value of a digit, decimal or hexadecimal of either case. */
  lemma DigitExact(c: char)
    ensures forall k :: 0 <= k < 10 && c == DECIMAL[k] ==> DigitOf(c) == k
    ensures forall k :: 0 <= k < 6 && (c == UPPER[k] || c == LOWER[k]) ==> DigitOf(c) == 10 + k
    ensures c !in DECIMAL && c !in UPPER[..6] && c !in LOWER[..6] ==> DigitOf(c) == -1
  {
    forall k | 0 <= k < 10 && c == DECIMAL[k] ensures DigitOf(c) == k {
      DigitValue(c, k);
    }
    forall k | 0 <= k < 6 && (c == UPPER[k] || c == LOWER[k]) ensures DigitOf(c) == 10 + k {
      DigitValue(c, k);
    }
    if IsDigit(c) {
      assert c == DECIMAL[c as int - '0' as int];
    }
    if 'A' <= c <= 'F' {
      assert c == UPPER[..6][c as int - 'A' as int];
    }
    if 'a' <= c <= 'f' {
      assert c == LOWER[..6][c as int - 'a' as int];
    }
  }

  lemma LimitExact()
    ensures SIZE_MAX + 1 == 18446744073709551616
    ensures CRLF == [13 as char, 10 as char] && BLANK_LINE == CRLF + CRLF
    ensures VERSION == "HTTP/1.1" + " "
  {
  }

  function Small(s: string): string { seq(|s|, i requires 0 <= i < |s| => Lower(s[i])) }

  /** Equal but for case is equal letter by letter, capitals counted as small letters. */
  lemma EqualsExact(a: string, b: string)
    ensures IEquals(a, b) <==> Small(a) == Small(b)
  {
    hide Lower;
    if Small(a) == Small(b) {
      assert |a| == |Small(a)| == |Small(b)| == |b|;
      forall i | 0 <= i < |a| ensures Lower(a[i]) == Lower(b[i]) {
        assert Small(a)[i] == Small(b)[i];
      }
    }
  }

  /** What is escaped, and that it is with capital digits. */
  lemma EscapeExact(c: char)
    requires c as int < 256
    ensures if c in UPPER || c in LOWER || c in DECIMAL || c in "-._~" then Escape(c) == [c]
            else exists high: nat, low: nat ::
                   && high < 16 && low < 16 && 16 * high + low == c as int
                   && Escape(c) == "%" + ["0123456789ABCDEF"[high]] + ["0123456789ABCDEF"[low]]
  {
    hide IsUnreserved;
    UnreservedExact(c);
    if !IsUnreserved(c) {
      var high, low := c as int / 16, c as int % 16;
      assert 16 * high + low == c as int && high < 16;
      assert Escape(c) == "%" + ["0123456789ABCDEF"[high]] + ["0123456789ABCDEF"[low]];
    }
  }

  predicate IsTokenText(s: string) {
    s != "" && forall i :: 0 <= i < |s| ==> 0x21 <= s[i] as int <= 0x7e && s[i] !in DELIMITERS
  }

  predicate HasNoControl(s: string) {
    forall i :: 0 <= i < |s| ==> s[i] == '\t' || (s[i] as int >= 0x20 && s[i] as int != 0x7f)
  }

  lemma TextExact(s: string)
    ensures IsToken(s) <==> IsTokenText(s)
    ensures IsFieldText(s) <==> HasNoControl(s)
  {
    hide IsTchar, IsFieldChar;
    forall i | 0 <= i < |s|
      ensures IsTchar(s[i]) <==> 0x21 <= s[i] as int <= 0x7e && s[i] !in DELIMITERS
      ensures IsFieldChar(s[i]) <==> s[i] == '\t' || (s[i] as int >= 0x20 && s[i] as int != 0x7f)
    {
      TokenCharExact(s[i]);
      FieldCharExact(s[i]);
    }
  }

  lemma SmallNames()
    ensures Small("Content-Length") == "content-length" && Small("Transfer-Encoding") == "transfer-encoding"
  {
  }

  lemma FramingNames(name: string)
    ensures IEquals(name, "Content-Length") <==> Small(name) == "content-length"
    ensures IEquals(name, "Transfer-Encoding") <==> Small(name) == "transfer-encoding"
  {
    hide Lower, IEquals;
    EqualsExact(name, "Content-Length");
    EqualsExact(name, "Transfer-Encoding");
    SmallNames();
  }

  predicate TrailerParts(line: string, name: string, value: string) {
    && line == name + (":" + value) && IsTokenText(name) && HasNoControl(value)
    && Small(name) != "content-length" && Small(name) != "transfer-encoding"
  }

  lemma TokenLacksColon(name: string)
    requires IsTokenText(name)
    ensures Lacks(name, ':') && name != ""
  {
    assert DELIMITERS[5] == ':';
  }

  /** A trailer line: a token, ':', and text without controls; and the token is none of the two that frame a message. */
  lemma TrailerLineExact(line: string)
    ensures IsTrailerLine(line) <==> exists name: string, value: string :: TrailerParts(line, name, value)
  {
    hide IsTokenText, HasNoControl, Small, IEquals, IsToken, IsFieldText, FindChar;
    if IsTrailerLine(line) {
      var colon := FindChar(line, ':');
      var name, value := line[..colon], line[colon + 1..];
      TextExact(name);
      TextExact(value);
      FramingNames(name);
      assert line == name + (":" + value);
      assert TrailerParts(line, name, value);
    }
    if name: string, value: string :| TrailerParts(line, name, value) {
      TextExact(name);
      TextExact(value);
      FramingNames(name);
      TokenLacksColon(name);
      FindCharAt(name, ':', value);
      CutAround(name, ":", value);
    }
  }

  /** What a bracketed host may be: one of the addresses, less than 64 bytes, without a zone. */
  lemma LiteralExact(text: string)
    ensures IsIpv6Literal(text) <==>
            text in INET6 && 1 <= |text| <= 63 && forall i :: 0 <= i < |text| ==> text[i] != '%'
  {
  }
}
