/**
 The lines of the chunked transfer coding: the cursor-threading lexers of the decoder, and the
 language they accept, given independently as a grammar with a printer (sections 7.1, 7.1.1 and
 7.1.2 of RFC 9112, sections 5.6.2 and 5.6.4 of RFC 9110).
 */
module ChunkLine {
  import opened Results
  import opened Text

  // ---------- The grammar ----------

  const QUOTE := '"'

  predicate IsQdtext(c: char) {
    c == '\t' || c == ' ' || c as int == 0x21 || 0x23 <= c as int <= 0x5b || 0x5d <= c as int <= 0x7e ||
      c as int >= 0x80
  }

  predicate IsQuotedPairChar(c: char) {
    c == '\t' || c == ' ' || 0x21 <= c as int <= 0x7e || c as int >= 0x80
  }

  datatype QuotedItem = Plain(c: char) | Escaped(c: char) {
    function Print(): string {
      match this
      case Plain(c) => [c]
      case Escaped(c) => ['\\', c]
    }

    predicate Ok() {
      match this
      case Plain(c) => IsQdtext(c)
      case Escaped(c) => IsQuotedPairChar(c)
    }
  }

  function PrintItems(items: seq<QuotedItem>): string {
    if items == [] then "" else items[0].Print() + PrintItems(items[1..])
  }

  datatype ExtensionValue = Bare(token: string) | Quoted(items: seq<QuotedItem>) {
    function Print(): string {
      match this
      case Bare(token) => token
      case Quoted(items) => "\"" + PrintItems(items) + "\""
    }

    predicate Ok() {
      match this
      case Bare(token) => IsToken(token)
      case Quoted(items) => forall i :: 0 <= i < |items| ==> items[i].Ok()
    }
  }

  /** `= value`, with the whitespace before and after the value. */
  datatype Assignment = Assignment(pad: string, value: ExtensionValue, after: string) {
    function Print(): string { "=" + (pad + (value.Print() + after)) }

    predicate Ok() { AllOws(pad) && value.Ok() && AllOws(after) }
  }

  /** One extension: a padded name, and possibly an assignment. */
  datatype Extension = Extension(pad: string, name: string, after: string, binding: Option<Assignment>) {
    function Print(): string {
      pad + (name + (after + if binding.Some? then binding.value.Print() else ""))
    }

    predicate Ok() {
      AllOws(pad) && IsToken(name) && AllOws(after) && (binding.Some? ==> binding.value.Ok())
    }
  }

  function PrintExtensions(exts: seq<Extension>): string
    requires exts != []
  {
    if |exts| == 1 then exts[0].Print() else exts[0].Print() + (";" + PrintExtensions(exts[1..]))
  }

  ghost predicate IsExtensionList(text: string) {
    exists exts: seq<Extension> ::
      exts != [] && (forall i :: 0 <= i < |exts| ==> exts[i].Ok()) && text == PrintExtensions(exts)
  }

  ghost predicate SizeLineParts(line: string, size: nat, hex: string, pad: string, tail: string) {
    && line == hex + pad + tail
    && hex != "" && IsNumeral(hex, 16) && NatOf(hex, 16) == size
    && AllOws(pad)
    && (tail == "" || (tail[0] == ';' && IsExtensionList(tail[1..])))
  }

  /** chunk-size, trailing whitespace, extensions: a size line announcing `size` data bytes. */
  ghost predicate IsSizeLine(line: string, size: nat) {
    exists hex: string, pad: string, tail: string ::
      SizeLineParts(line, size, hex, pad, tail)
  }

  /** A trailer field line; framing fields are not allowed in trailers. */
  predicate IsTrailerLine(line: string) {
    var colon := FindChar(line, ':');
    && colon > 0
    && IsToken(line[..colon]) && IsFieldText(line[colon + 1..])
    && !IEquals(line[..colon], "Content-Length") && !IEquals(line[..colon], "Transfer-Encoding")
  }

  // ---------- Where each lexeme ends ----------

  function TokenEnd(s: string, i: nat): (r: nat)
    requires i <= |s|
    ensures i <= r <= |s|
    decreases |s| - i
  {
    if i < |s| && IsTchar(s[i]) then TokenEnd(s, i + 1) else i
  }

  lemma {:induction false} TokenEndRun(s: string, i: nat)
    requires i <= |s|
    ensures forall j :: i <= j < TokenEnd(s, i) ==> IsTchar(s[j])
    decreases |s| - i
  {
    if i < |s| && IsTchar(s[i]) {
      TokenEndRun(s, i + 1);
    }
  }

  lemma {:induction false} TokenEndIs(s: string, i: nat, r: nat)
    requires i <= r <= |s|
    requires (forall j :: i <= j < r ==> IsTchar(s[j])) && (r < |s| ==> !IsTchar(s[r]))
    ensures TokenEnd(s, i) == r
    decreases r - i
  {
    if i < r {
      TokenEndIs(s, i + 1, r);
    }
  }

  function QuotedBodyEnd(s: string, i: nat): (r: int)
    ensures r == NPOS || i < r <= |s|
    decreases |s| - i
  {
    if i >= |s| then NPOS
    else if s[i] == QUOTE then i + 1
    else if s[i] == '\\' then
      if i + 1 < |s| && IsQuotedPairChar(s[i + 1]) then QuotedBodyEnd(s, i + 2) else NPOS
    else if IsQdtext(s[i]) then QuotedBodyEnd(s, i + 1)
    else NPOS
  }

  function QuotedEnd(s: string, i: nat): (r: int)
    ensures r == NPOS || i + 1 < r <= |s|
  {
    if i < |s| && s[i] == QUOTE then QuotedBodyEnd(s, i + 1) else NPOS
  }

  function ValueEnd(s: string, i: nat): (r: int)
    requires i <= |s|
    ensures r == NPOS || i < r <= |s|
  {
    var at := OwsEnd(s, i);
    var end := if at < |s| && s[at] == QUOTE then QuotedEnd(s, at)
               else if TokenEnd(s, at) == at then NPOS
               else TokenEnd(s, at);
    if end < 0 then NPOS else OwsEnd(s, end)
  }

  function ExtensionEnd(s: string, i: nat): (r: int)
    requires i <= |s|
    ensures r == NPOS || i < r <= |s|
  {
    var name := OwsEnd(s, i);
    var after := TokenEnd(s, name);
    if after == name then NPOS
    else
      var next := OwsEnd(s, after);
      if next < |s| && s[next] == '=' then ValueEnd(s, next + 1) else next
  }

  predicate ExtensionsFrom(s: string, i: nat)
    requires i <= |s|
    decreases |s| - i
  {
    var end := ExtensionEnd(s, i);
    end >= 0 && (end == |s| || (s[end] == ';' && ExtensionsFrom(s, end + 1)))
  }

  // ---------- Pieces of a text, by position ----------

  lemma AtSplit(s: string, a: string, b: string, i: nat)
    ensures At(s, a + b, i) <==> At(s, a, i) && At(s, b, i + |a|)
  {
    var t := a + b;
    if At(s, t, i) {
      assert forall k :: 0 <= k < |a| ==> a[k] == t[k];
      assert forall k :: 0 <= k < |b| ==> b[k] == t[|a| + k];
    }
  }

  /** Three consecutive pieces, nested to the right as the printers nest them. */
  lemma AtThree(s: string, a: string, b: string, c: string, i: nat)
    ensures At(s, a + (b + c), i) <==> At(s, a, i) && At(s, b, i + |a|) && At(s, c, i + |a| + |b|)
  {
    AtSplit(s, a, b + c, i);
    AtSplit(s, b, c, i + |a|);
  }

  lemma AtSlice(s: string, i: nat, j: nat)
    requires i <= j <= |s|
    ensures At(s, s[i..j], i)
  {
  }

  lemma OwsSlice(s: string, i: nat) returns (w: string)
    requires i <= |s|
    ensures At(s, w, i) && AllOws(w) && i + |w| == OwsEnd(s, i)
  {
    OwsEndRun(s, i);
    w := s[i..OwsEnd(s, i)];
  }

  lemma TokenSlice(s: string, i: nat) returns (t: string)
    requires i <= |s| && TokenEnd(s, i) > i
    ensures At(s, t, i) && IsToken(t) && i + |t| == TokenEnd(s, i)
  {
    TokenEndRun(s, i);
    t := s[i..TokenEnd(s, i)];
  }

  lemma AtChar(s: string, t: string, i: nat)
    requires At(s, t, i)
    ensures forall j :: i <= j < i + |t| ==> s[j] == t[j - i]
  {
  }

  // ---------- Accepted text is in the grammar ----------

  lemma ItemsJoin(s: string, i: nat, item: QuotedItem, rest: seq<QuotedItem>) returns (items: seq<QuotedItem>)
    requires At(s, item.Print(), i) && At(s, PrintItems(rest) + "\"", i + |item.Print()|)
    ensures items == [item] + rest && At(s, PrintItems(items) + "\"", i)
    ensures |PrintItems(items)| == |item.Print()| + |PrintItems(rest)|
  {
    items := [item] + rest;
    assert items[1..] == rest;
    AtSplit(s, item.Print(), PrintItems(rest) + "\"", i);
    Regroup(item.Print(), PrintItems(rest), "\"");
  }

  lemma {:induction false} QuotedSound(s: string, i: nat) returns (items: seq<QuotedItem>)
    requires QuotedBodyEnd(s, i) >= 0
    ensures forall j :: 0 <= j < |items| ==> items[j].Ok()
    ensures At(s, PrintItems(items) + "\"", i) && i + |PrintItems(items)| + 1 == QuotedBodyEnd(s, i)
    decreases |s| - i
  {
    hide IsQdtext, IsQuotedPairChar;
    if s[i] == QUOTE {
      items := [];
    } else {
      var item := if s[i] == '\\' then Escaped(s[i + 1]) else Plain(s[i]);
      var rest := QuotedSound(s, i + |item.Print()|);
      items := ItemsJoin(s, i, item, rest);
    }
  }

  lemma BareOrQuotedSound(s: string, at: nat, end: nat) returns (value: ExtensionValue)
    requires at <= end <= |s|
    requires if at < |s| && s[at] == QUOTE then QuotedEnd(s, at) == end else TokenEnd(s, at) == end > at
    ensures value.Ok() && At(s, value.Print(), at) && |value.Print()| == end - at
  {
    if s[at] == QUOTE {
      var items := QuotedSound(s, at + 1);
      value := Quoted(items);
      AtSplit(s, "\"", PrintItems(items) + "\"", at);
      assert value.Print() == "\"" + (PrintItems(items) + "\"");
    } else {
      var token := TokenSlice(s, at);
      value := Bare(token);
    }
  }

  lemma ValueStarts(s: string, i: nat)
    requires i <= |s| && ValueEnd(s, i) >= 0
    ensures var at := OwsEnd(s, i);
            && at < |s| && (s[at] == QUOTE || TokenEnd(s, at) > at)
            && var end := if s[at] == QUOTE then QuotedEnd(s, at) else TokenEnd(s, at);
            at < end <= |s| && ValueEnd(s, i) == OwsEnd(s, end)
  {
    hide OwsEnd, TokenEnd, QuotedBodyEnd;
  }

  lemma AtOne(s: string, c: char, i: nat)
    requires i < |s| && s[i] == c
    ensures At(s, [c], i)
  {
  }

  lemma ValueSound(s: string, i: nat) returns (a: Assignment)
    requires i < |s| && s[i] == '=' && ValueEnd(s, i + 1) >= 0
    ensures a.Ok() && At(s, a.Print(), i) && i + |a.Print()| == ValueEnd(s, i + 1)
  {
    hide At, OwsEnd, TokenEnd, QuotedEnd, AllOws, ExtensionValue.Ok, ExtensionValue.Print, ValueEnd;
    ValueStarts(s, i + 1);
    var at := OwsEnd(s, i + 1);
    var end := if s[at] == QUOTE then QuotedEnd(s, at) else TokenEnd(s, at);
    var value := BareOrQuotedSound(s, at, end);
    var pad := OwsSlice(s, i + 1);
    var after := OwsSlice(s, end);
    a := Assignment(pad, value, after);
    AtThree(s, a.pad, value.Print(), a.after, i + 1);
    AtSplit(s, "=", a.pad + (value.Print() + a.after), i);
    AtOne(s, '=', i);
  }

  lemma ExtensionStarts(s: string, i: nat)
    requires i <= |s| && ExtensionEnd(s, i) >= 0
    ensures TokenEnd(s, OwsEnd(s, i)) > OwsEnd(s, i)
    ensures var next := OwsEnd(s, TokenEnd(s, OwsEnd(s, i))); next < |s| && s[next] == '=' ==>
            ValueEnd(s, next + 1) >= 0
  {
    hide OwsEnd, TokenEnd, ValueEnd;
  }

  lemma AtNothing(s: string, i: nat)
    ensures i <= |s| ==> At(s, "", i)
  {
  }

  function BindingText(e: Extension): string {
    if e.binding.Some? then e.binding.value.Print() else ""
  }

  lemma PiecesMakeExtension(s: string, i: nat, e: Extension)
    requires At(s, e.pad, i) && At(s, e.name, i + |e.pad|) && At(s, e.after, i + |e.pad| + |e.name|)
    requires At(s, BindingText(e), i + |e.pad| + |e.name| + |e.after|)
    ensures At(s, e.Print(), i)
    ensures |e.Print()| == |e.pad| + |e.name| + |e.after| + |BindingText(e)|
  {
    hide At, Assignment.Print;
    AtSplit(s, e.after, BindingText(e), i + |e.pad| + |e.name|);
    AtThree(s, e.pad, e.name, e.after + BindingText(e), i);
  }

  lemma ExtensionEndIs(s: string, i: nat, name: nat, after: nat, next: nat)
    requires i <= name < after <= next <= |s|
    requires OwsEnd(s, i) == name && TokenEnd(s, name) == after && OwsEnd(s, after) == next
    ensures ExtensionEnd(s, i) == if next < |s| && s[next] == '=' then ValueEnd(s, next + 1) else next
  {
  }

  lemma ExtensionSound(s: string, i: nat) returns (e: Extension)
    requires i <= |s| && ExtensionEnd(s, i) >= 0
    ensures e.Ok() && At(s, e.Print(), i) && i + |e.Print()| == ExtensionEnd(s, i)
  {
    hide ValueEnd, At, OwsEnd, TokenEnd, AllOws, IsToken, ExtensionEnd, Assignment.Ok, Extension.Print,
         Assignment.Print;
    ExtensionStarts(s, i);
    var pad := OwsSlice(s, i);
    var name := TokenSlice(s, OwsEnd(s, i));
    var at := i + |pad| + |name|;
    var after := OwsSlice(s, at);
    var next := at + |after|;
    ExtensionEndIs(s, i, i + |pad|, at, next);
    if next < |s| && s[next] == '=' {
      var a := ValueSound(s, next);
      e := Extension(pad, name, after, Some(a));
    } else {
      e := Extension(pad, name, after, None);
      AtNothing(s, next);
    }
    PiecesMakeExtension(s, i, e);
  }

  lemma {:induction false} ExtensionsSound(s: string, i: nat) returns (exts: seq<Extension>)
    requires i <= |s| && ExtensionsFrom(s, i)
    ensures exts != [] && forall j :: 0 <= j < |exts| ==> exts[j].Ok()
    ensures At(s, PrintExtensions(exts), i) && i + |PrintExtensions(exts)| == |s|
    decreases |s| - i
  {
    hide At, ExtensionEnd, Extension.Ok, Extension.Print;
    var e := ExtensionSound(s, i);
    var end := ExtensionEnd(s, i);
    exts := [e];
    if end < |s| {
      var rest := ExtensionsSound(s, end + 1);
      exts := [e] + rest;
      assert exts[1..] == rest;
      AtOne(s, ';', end);
      AtThree(s, e.Print(), ";", PrintExtensions(rest), i);
    }
  }

  // ---------- The grammar is accepted ----------

  lemma OwsEndAt(s: string, i: nat, w: string)
    requires At(s, w, i) && AllOws(w)
    requires i + |w| == |s| || !IsOws(s[i + |w|])
    ensures OwsEnd(s, i) == i + |w|
  {
    AtChar(s, w, i);
    OwsEndIs(s, i, i + |w|);
  }

  lemma TokenEndAt(s: string, i: nat, t: string)
    requires At(s, t, i) && AllTchar(t)
    requires i + |t| == |s| || !IsTchar(s[i + |t|])
    ensures TokenEnd(s, i) == i + |t|
  {
    AtChar(s, t, i);
    TokenEndIs(s, i, i + |t|);
  }

  lemma QuotedStop(s: string, i: nat)
    requires At(s, "\"", i)
    ensures QuotedBodyEnd(s, i) == i + 1
  {
    assert s[i] == "\""[0];
  }

  lemma QuotedStep(s: string, i: nat, item: QuotedItem)
    requires item.Ok() && At(s, item.Print(), i)
    ensures QuotedBodyEnd(s, i) == QuotedBodyEnd(s, i + |item.Print()|)
  {
    var p := item.Print();
    assert s[i] == p[0] && (|p| > 1 ==> s[i + 1] == p[1]);
  }

  lemma {:induction false} QuotedComplete(s: string, i: nat, items: seq<QuotedItem>)
    requires forall j :: 0 <= j < |items| ==> items[j].Ok()
    requires At(s, PrintItems(items) + "\"", i)
    ensures QuotedBodyEnd(s, i) == i + |PrintItems(items)| + 1
    decreases |items|
  {
    hide At, QuotedBodyEnd, QuotedItem.Ok, QuotedItem.Print;
    if items == [] {
      assert PrintItems(items) + "\"" == "\"";
      QuotedStop(s, i);
    } else {
      var one, rest := items[0].Print(), PrintItems(items[1..]) + "\"";
      Regroup(one, PrintItems(items[1..]), "\"");
      AtSplit(s, one, rest, i);
      QuotedComplete(s, i + |one|, items[1..]);
      QuotedStep(s, i, items[0]);
    }
  }

  lemma BareComplete(s: string, at: nat, token: string)
    requires IsToken(token) && At(s, token, at) && (at + |token| == |s| || !IsTchar(s[at + |token|]))
    ensures at < |s| && !IsOws(s[at]) && s[at] != QUOTE && TokenEnd(s, at) == at + |token| > at
  {
    hide TokenEnd;
    AtChar(s, token, at);
    TokenEndAt(s, at, token);
    assert s[at] == token[0];
  }

  lemma FirstAt(s: string, text: string, at: nat)
    requires text != "" && At(s, text, at)
    ensures at < |s| && s[at] == text[0]
  {
    AtChar(s, text, at);
  }

  lemma QuotedValueComplete(s: string, at: nat, items: seq<QuotedItem>)
    requires (forall i :: 0 <= i < |items| ==> items[i].Ok()) && At(s, "\"" + PrintItems(items) + "\"", at)
    ensures at < |s| && s[at] == QUOTE && !IsOws(s[at]) && QuotedEnd(s, at) == at + |"\"" + PrintItems(items) + "\""|
  {
    hide At, QuotedBodyEnd, PrintItems;
    Regroup("\"", PrintItems(items), "\"");
    AtSplit(s, "\"", PrintItems(items) + "\"", at);
    FirstAt(s, "\"", at);
    QuotedComplete(s, at + 1, items);
  }

  lemma BareOrQuotedComplete(s: string, at: nat, value: ExtensionValue)
    requires value.Ok() && At(s, value.Print(), at)
    requires at + |value.Print()| == |s| || !IsTchar(s[at + |value.Print()|])
    ensures at < |s| && !IsOws(s[at])
    ensures (if s[at] == QUOTE then QuotedEnd(s, at) else TokenEnd(s, at)) == at + |value.Print()| > at
  {
    hide At, TokenEnd, QuotedBodyEnd, IsTchar, IsOws;
    match value
    case Bare(token) => BareComplete(s, at, token);
    case Quoted(items) => QuotedValueComplete(s, at, items);
  }

  lemma ValuePiecesComplete(s: string, i: nat, pad: string, value: ExtensionValue, after: string)
    requires AllOws(pad) && value.Ok() && AllOws(after)
    requires At(s, pad, i) && At(s, value.Print(), i + |pad|) && At(s, after, i + |pad| + |value.Print()|)
    requires var end := i + |pad| + |value.Print()| + |after|; end == |s| || s[end] == ';'
    ensures ValueEnd(s, i) == i + |pad| + |value.Print()| + |after|
  {
    var at := i + |pad|;
    var end := at + |value.Print()|;
    hide OwsEnd, TokenEnd, QuotedEnd, ExtensionValue.Ok, ExtensionValue.Print;
    assert after != "" ==> s[end] == after[0];
    BareOrQuotedComplete(s, at, value);
    OwsEndAt(s, i, pad);
    OwsEndAt(s, end, after);
  }

  lemma ValueComplete(s: string, i: nat, a: Assignment)
    requires a.Ok() && At(s, a.Print(), i)
    requires i + |a.Print()| == |s| || s[i + |a.Print()|] == ';'
    ensures i < |s| && s[i] == '=' && ValueEnd(s, i + 1) == i + |a.Print()|
  {
    var text := a.value.Print();
    hide OwsEnd, TokenEnd, QuotedEnd, AllOws, ExtensionValue.Ok, ExtensionValue.Print, ValueEnd;
    AtSplit(s, "=", a.pad + (text + a.after), i);
    AtThree(s, a.pad, text, a.after, i + 1);
    assert s[i] == "="[0];
    ValuePiecesComplete(s, i + 1, a.pad, a.value, a.after);
  }

  lemma ExtensionPieces(s: string, i: nat, e: Extension)
    requires At(s, e.Print(), i)
    ensures At(s, e.pad, i) && At(s, e.name, i + |e.pad|) && At(s, e.after, i + |e.pad| + |e.name|)
    ensures At(s, BindingText(e), i + |e.pad| + |e.name| + |e.after|)
    ensures |e.Print()| == |e.pad| + |e.name| + |e.after| + |BindingText(e)|
  {
    hide At, Assignment.Print;
    AtThree(s, e.pad, e.name, e.after + BindingText(e), i);
    AtSplit(s, e.after, BindingText(e), i + |e.pad| + |e.name|);
  }

  lemma NamePiecesComplete(s: string, i: nat, pad: string, name: string, after: string)
    requires AllOws(pad) && IsToken(name) && AllOws(after)
    requires At(s, pad, i) && At(s, name, i + |pad|) && At(s, after, i + |pad| + |name|)
    requires var end := i + |pad| + |name| + |after|; end == |s| || s[end] == ';' || s[end] == '='
    ensures OwsEnd(s, i) == i + |pad| && TokenEnd(s, i + |pad|) == i + |pad| + |name|
    ensures OwsEnd(s, i + |pad| + |name|) == i + |pad| + |name| + |after|
  {
    assert s[i + |pad|] == name[0];
    assert after != "" ==> s[i + |pad| + |name|] == after[0];
    OwsEndAt(s, i, pad);
    TokenEndAt(s, i + |pad|, name);
    OwsEndAt(s, i + |pad| + |name|, after);
  }

  lemma ExtensionComplete(s: string, i: nat, e: Extension, end: nat)
    requires e.Ok() && At(s, e.Print(), i)
    requires end == i + |e.Print()| && (end == |s| || s[end] == ';')
    ensures ExtensionEnd(s, i) == end
  {
    hide At, OwsEnd, TokenEnd, ValueEnd, ExtensionEnd, AllOws, AllTchar, Assignment.Ok, Extension.Print,
         Assignment.Print;
    ExtensionPieces(s, i, e);
    var after := i + |e.pad| + |e.name|;
    var next := after + |e.after|;
    if e.binding.Some? {
      ValueComplete(s, next, e.binding.value);
    }
    NamePiecesComplete(s, i, e.pad, e.name, e.after);
    ExtensionEndIs(s, i, i + |e.pad|, after, next);
  }

  lemma ExtensionsStep(s: string, i: nat, end: nat)
    requires i <= |s| && ExtensionEnd(s, i) == end
    requires end == |s| || (s[end] == ';' && ExtensionsFrom(s, end + 1))
    ensures ExtensionsFrom(s, i)
  {
  }

  lemma {:induction false} ExtensionsComplete(s: string, i: nat, exts: seq<Extension>)
    requires exts != [] && forall j :: 0 <= j < |exts| ==> exts[j].Ok()
    requires At(s, PrintExtensions(exts), i) && i + |PrintExtensions(exts)| == |s|
    ensures ExtensionsFrom(s, i)
    decreases |exts|
  {
    var one := exts[0].Print();
    if |exts| > 1 {
      AtThree(s, one, ";", PrintExtensions(exts[1..]), i);
      assert s[i + |one|] == ";"[0];
      ExtensionsComplete(s, i + |one| + 1, exts[1..]);
    }
    ExtensionComplete(s, i, exts[0], i + |one|);
    ExtensionsStep(s, i, i + |one|);
  }

  /** The extension recogniser is exact. */
  lemma ExtensionsExact(text: string)
    ensures ExtensionsFrom(text, 0) <==> IsExtensionList(text)
  {
    hide ExtensionsFrom, PrintExtensions;
    AtSlice(text, 0, |text|);
    if ExtensionsFrom(text, 0) {
      var exts := ExtensionsSound(text, 0);
    }
    if IsExtensionList(text) {
      var exts: seq<Extension> :|
        exts != [] && (forall i :: 0 <= i < |exts| ==> exts[i].Ok()) && text == PrintExtensions(exts);
      ExtensionsComplete(text, 0, exts);
    }
  }

  // ---------- Size lines ----------

  /** The announced size of a size line, or the decoder's error. */
  function ChunkSize(line: string): (r: Result<nat>)
    ensures r.Ok? ==> r.value <= SIZE_MAX
  {
    var semicolon := Until(line, 0, ";");
    var sizeText := line[..OwsStart(line, 0, semicolon)];
    if sizeText == "" then Err(InvalidChunkSize)
    else if semicolon < |line| && !ExtensionsFrom(line, semicolon + 1) then Err(InvalidChunkFraming)
    else match Number(sizeText, 16)
      case None => Err(InvalidChunkSize)
      case Some(n) => Ok(n)
  }

  lemma {:induction false} ShiftExtensions(s: string, from: nat)
    requires from <= |s|
    ensures ExtensionsFrom(s, from) <==> IsExtensionList(s[from..])
  {
    hide ExtensionsFrom, PrintExtensions;
    var t := s[from..];
    if ExtensionsFrom(s, from) {
      var exts := ExtensionsSound(s, from);
      var p := PrintExtensions(exts);
      assert forall k :: 0 <= k < |p| ==> t[k] == s[from + k] == p[k];
      assert t == p;
    }
    if IsExtensionList(t) {
      var exts: seq<Extension> :|
        exts != [] && (forall i :: 0 <= i < |exts| ==> exts[i].Ok()) && t == PrintExtensions(exts);
      assert At(s, t, from);
      ExtensionsComplete(s, from, exts);
    }
  }

  lemma ShiftCursor(s: string, from: nat)
    requires from <= |s|
    ensures ExtensionsFrom(s, from) == ExtensionsFrom(s[from..], 0)
  {
    ShiftExtensions(s, from);
    ExtensionsExact(s[from..]);
  }

  lemma TailSound(line: string, end: nat)
    requires end <= |line| && (end < |line| ==> line[end] == ';' && ExtensionsFrom(line, end + 1))
    ensures var tail := line[end..]; tail == "" || (tail[0] == ';' && IsExtensionList(tail[1..]))
  {
    if end < |line| {
      ShiftExtensions(line, end + 1);
      assert line[end..][1..] == line[end + 1..];
    }
  }

  lemma ThreeParts(line: string, at: nat, end: nat, size: nat)
    requires 0 < at <= end <= |line| && at == OwsStart(line, 0, end) && Number(line[..at], 16) == Some(size)
    requires end == |line| || (line[end] == ';' && ExtensionsFrom(line, end + 1))
    ensures IsSizeLine(line, size)
  {
    hide NatOf, DigitOf, ExtensionsFrom, IsExtensionList, OwsStart;
    var hex, pad, tail := line[..at], line[at..end], line[end..];
    OwsStartRun(line, 0, end);
    TailSound(line, end);
    CutTwice(line, at, end);
    assert SizeLineParts(line, size, hex, pad, tail);
  }

  lemma SizeLineSound(line: string)
    requires ChunkSize(line).Ok?
    ensures IsSizeLine(line, ChunkSize(line).value)
  {
    var end := Until(line, 0, ";");
    var at := OwsStart(line, 0, end);
    ThreeParts(line, at, end, ChunkSize(line).value);
  }

  lemma ChunkSizeIs(line: string, at: nat, end: nat)
    requires 0 < at <= end <= |line| && Until(line, 0, ";") == end && OwsStart(line, 0, end) == at
    requires end < |line| ==> ExtensionsFrom(line, end + 1)
    ensures ChunkSize(line) == match Number(line[..at], 16) case None => Err(InvalidChunkSize) case Some(n) => Ok(n)
  {
    hide Number, ExtensionsFrom, Until, OwsStart;
  }

  lemma TailComplete(head: string, tail: string)
    requires tail == "" || IsExtensionList(tail[1..])
    ensures tail != "" ==> ExtensionsFrom(head + tail, |head| + 1)
  {
    hide IsExtensionList, ExtensionsFrom;
    if tail != "" {
      CutAtSeam(head, tail);
      CutSum(head + tail, |head|, 1);
      ShiftExtensions(head + tail, |head| + 1);
    }
  }

  lemma SizeTextEnds(hex: string, pad: string, tail: string)
    requires hex != "" && IsNumeral(hex, 16) && AllOws(pad) && (tail == "" || tail[0] == ';')
    ensures Until(hex + pad + tail, 0, ";") == |hex| + |pad|
    ensures OwsStart(hex + pad + tail, 0, |hex| + |pad|) == |hex|
  {
    var head, line := hex + pad, hex + pad + tail;
    forall j | 0 <= j < |head| ensures head[j] !in ";" {
      assert head[j] == if j < |hex| then hex[j] else pad[j - |hex|];
    }
    UntilAt(head, tail, ";");
    assert forall j :: |hex| <= j < |head| ==> line[j] == pad[j - |hex|];
    assert line[|hex| - 1] == hex[|hex| - 1];
    OwsStartIs(line, 0, |hex|, |head|);
  }

  lemma SizePartsComplete(line: string, size: usize, hex: string, pad: string, tail: string)
    requires SizeLineParts(line, size, hex, pad, tail)
    ensures ChunkSize(line) == Ok(size)
  {
    hide ChunkSize, ExtensionsFrom, IsExtensionList, Until, OwsStart, NatOf, DigitOf;
    SizeTextEnds(hex, pad, tail);
    TailComplete(hex + pad, tail);
    ChunkSizeIs(line, |hex|, |hex| + |pad|);
    Regroup(hex, pad, tail);
    CutAtSeam(hex, pad + tail);
  }

  lemma SizeLineComplete(line: string, size: usize)
    requires IsSizeLine(line, size)
    ensures ChunkSize(line) == Ok(size)
  {
    hide SizeLineParts, ChunkSize;
    var hex: string, pad: string, tail: string :| SizeLineParts(line, size, hex, pad, tail);
    SizePartsComplete(line, size, hex, pad, tail);
  }

  /** Something that is not whitespace, then ';', and then what is no extension list. */
  ghost predicate HasBadExtensions(line: string) {
    exists front: string, tail: string ::
      line == front + (";" + tail) && Lacks(front, ';') && !AllOws(front) && !IsExtensionList(tail)
  }

  lemma FrontIsSize(line: string, end: nat)
    requires end <= |line|
    ensures line[..OwsStart(line, 0, end)] == "" <==> AllOws(line[..end])
  {
    OwsStartRun(line, 0, end);
    var front := line[..end];
    assert forall i :: 0 <= i < end ==> front[i] == line[i];
  }

  lemma FrontIsUntil(front: string, tail: string)
    requires Lacks(front, ';')
    ensures var line := front + (";" + tail);
            Until(line, 0, ";") == |front| && line[..|front|] == front && line[|front| + 1..] == tail
  {
    UntilAt(front, ";" + tail, ";");
    CutAround(front, ";", tail);
  }

  /** What a line comes to, its front up to the first ';' being `front` and `tail` what follows that. */
  lemma FramingError(line: string, front: string, tail: string)
    requires line == front + (";" + tail) && Lacks(front, ';')
    ensures ChunkSize(line) == Err(InvalidChunkFraming) <==> !AllOws(front) && !IsExtensionList(tail)
  {
    hide ExtensionsFrom, IsExtensionList, Until, OwsStart, Number, AllOws;
    FrontIsUntil(front, tail);
    FrontIsSize(line, |front|);
    ShiftExtensions(line, |front| + 1);
  }

  lemma NoFramingError(line: string)
    requires Lacks(line, ';')
    ensures ChunkSize(line) != Err(InvalidChunkFraming) && !HasBadExtensions(line)
  {
    hide ExtensionsFrom, IsExtensionList, Until, OwsStart, Number, AllOws;
    UntilIs(line, 0, ";", |line|);
    forall front: string, tail: string ensures line != front + (";" + tail) {
      assert (front + (";" + tail))[|front|] == ';';
    }
  }

  lemma BadExtensionsExact(line: string)
    ensures ChunkSize(line) == Err(InvalidChunkFraming) <==> HasBadExtensions(line)
  {
    hide ChunkSize, IsExtensionList, Until, AllOws;
    forall front: string, tail: string | line == front + (";" + tail) && Lacks(front, ';')
      ensures ChunkSize(line) == Err(InvalidChunkFraming) <==> !AllOws(front) && !IsExtensionList(tail)
    {
      FramingError(line, front, tail);
    }
    if Lacks(line, ';') {
      NoFramingError(line);
    } else {
      UntilRun(line, 0, ";");
      var end := Until(line, 0, ";");
      assert line == line[..end] + (";" + line[end + 1..]) && Lacks(line[..end], ';');
    }
  }

  /** The two errors of a size line, told from its text. */
  lemma ChunkSizeExact(line: string)
    ensures ChunkSize(line).Ok? <==> exists size: nat :: size <= SIZE_MAX && IsSizeLine(line, size)
    ensures ChunkSize(line) == Err(InvalidChunkFraming) <==> HasBadExtensions(line)
    ensures ChunkSize(line).Err? ==> ChunkSize(line).error in {InvalidChunkFraming, InvalidChunkSize}
  {
    hide ExtensionsFrom, HasBadExtensions, Until, OwsStart, Number, IsSizeLine;
    BadExtensionsExact(line);
    if ChunkSize(line).Ok? {
      SizeLineSound(line);
    }
    if size: nat :| size <= SIZE_MAX && IsSizeLine(line, size) {
      SizeLineComplete(line, size);
    }
  }

  // ---------- The lexers, as the decoder runs them ----------

  method SkipOws(text: string, cursor: nat) returns (next: nat)
    requires cursor <= |text|
    ensures next == OwsEnd(text, cursor)
  {
    next := cursor;
    while next < |text| && IsOws(text[next])
      invariant cursor <= next <= |text| && OwsEnd(text, next) == OwsEnd(text, cursor)
    {
      next := next + 1;
    }
  }

  method ParseToken(text: string, cursor: nat) returns (ok: bool, next: nat)
    requires cursor <= |text|
    ensures next == TokenEnd(text, cursor) && ok == (next != cursor)
  {
    next := cursor;
    while next < |text| && IsTchar(text[next])
      invariant cursor <= next <= |text| && TokenEnd(text, next) == TokenEnd(text, cursor)
    {
      next := next + 1;
    }
    ok := next != cursor;
  }

  method ParseQuotedString(text: string, cursor: nat) returns (ok: bool, next: nat)
    requires cursor <= |text|
    ensures ok == (QuotedEnd(text, cursor) >= 0)
    ensures ok ==> next == QuotedEnd(text, cursor)
  {
    next := cursor;
    if next >= |text| || text[next] != QUOTE {
      return false, next;
    }
    next := next + 1;
    while next < |text|
      invariant next <= |text| && QuotedBodyEnd(text, next) == QuotedEnd(text, cursor)
      decreases |text| - next
    {
      var ch := text[next];
      if ch == QUOTE {
        return true, next + 1;
      }
      if ch == '\\' {
        next := next + 1;
        if next >= |text| || !IsQuotedPairChar(text[next]) {
          return false, next;
        }
        next := next + 1;
        continue;
      }
      if !IsQdtext(ch) {
        return false, next;
      }
      next := next + 1;
    }
    return false, next;
  }

  method ValidChunkExtensions(extension: string) returns (ok: bool)
    ensures ok == ExtensionsFrom(extension, 0)
  {
    hide OwsEnd, TokenEnd, QuotedEnd, IsTchar;
    if extension == "" {
      return false;
    }
    var cursor := 0;
    while true
      invariant cursor <= |extension| && ExtensionsFrom(extension, cursor) == ExtensionsFrom(extension, 0)
      decreases |extension| - cursor
    {
      ghost var start := cursor;
      cursor := SkipOws(extension, cursor);
      ok, cursor := ParseToken(extension, cursor);
      if !ok {
        return false;
      }
      cursor := SkipOws(extension, cursor);
      if cursor < |extension| && extension[cursor] == '=' {
        cursor := cursor + 1;
        cursor := SkipOws(extension, cursor);
        if cursor >= |extension| {
          return false;
        }
        if extension[cursor] == QUOTE {
          ok, cursor := ParseQuotedString(extension, cursor);
        } else {
          ok, cursor := ParseToken(extension, cursor);
        }
        if !ok {
          return false;
        }
        cursor := SkipOws(extension, cursor);
      }
      assert ExtensionEnd(extension, start) == cursor;
      if cursor == |extension| {
        return true;
      }
      if extension[cursor] != ';' {
        return false;
      }
      cursor := cursor + 1;
      if cursor == |extension| {
        return false;
      }
    }
  }

  method ParseChunkSize(line: string) returns (r: Result<nat>)
    ensures r == ChunkSize(line)
  {
    hide ExtensionsFrom, Until, Number;
    var semicolon := Until(line, 0, ";");
    var end: nat := semicolon;
    while end > 0 && IsOws(line[end - 1])
      invariant end <= |line| && OwsStart(line, 0, end) == OwsStart(line, 0, semicolon)
    {
      end := end - 1;
    }
    var sizeText := line[..end];
    if sizeText == "" {
      return Err(InvalidChunkSize);
    }
    if semicolon < |line| {
      var valid := ValidChunkExtensions(line[semicolon + 1..]);
      ShiftCursor(line, semicolon + 1);
      if !valid {
        return Err(InvalidChunkFraming);
      }
    }
    var value := FromChars(sizeText, 16);
    match value
    case None => return Err(InvalidChunkSize);
    case Some(n) => return Ok(n);
  }

  method ValidTrailerLine(line: string) returns (ok: bool)
    ensures ok == IsTrailerLine(line)
  {
    if line == "" || IsOws(line[0]) {
      assert line != "" && FindChar(line, ':') > 0 ==> line[..FindChar(line, ':')][0] == line[0];
      return false;
    }
    var colon := FindChar(line, ':');
    if colon <= 0 {
      return false;
    }
    var name, value := line[..colon], line[colon + 1..];
    if !IsToken(name) || !IsFieldText(value) {
      return false;
    }
    return !IEquals(name, "Content-Length") && !IEquals(name, "Transfer-Encoding");
  }
}
