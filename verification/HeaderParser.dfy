/** Reading an article's header block (src/parse.rs): folded header lines, the
    blank line, and the Message-ID headers rewritten in place. */
module HeaderParser {
  import opened Text
  import opened Wire
  import MessageId

  predicate IsBlank(c: char) { c == ' ' || c == '\t' }

  /** The text behind its leading spaces and tabs. */
  function SkipBlanks(s: string): (t: string)
    ensures |t| <= |s| && (t == "" || !IsBlank(t[0]))
    ensures s != "" && IsBlank(s[0]) ==> |t| < |s|
  {
    if s != "" && IsBlank(s[0]) then SkipBlanks(s[1..]) else s
  }

  /** How far the text goes before a character of `stop`. */
  function Span(s: string, stop: set<char>): (i: nat)
    ensures i <= |s| && (i < |s| ==> s[i] in stop)
    ensures forall c :: c in s[..i] ==> c !in stop
  {
    if s == "" || s[0] in stop then 0
    else
      var i := 1 + Span(s[1..], stop);
      assert s[..i] == [s[0]] + s[1..][..i - 1];
      i
  }

  const EOL: set<char> := {'\r', '\n'}
  const NAME_STOP: set<char> := {':', '\r', '\n'}

  /** A line's text and what follows its CRLF. */
  function TextLine(s: string): (r: Option<(string, string)>)
    ensures r.Some? ==> |r.value.1| < |s| && forall c :: c in r.value.0 ==> c !in EOL
  {
    var e := Span(s, EOL);
    if "\r\n" <= s[e..] then Some((s[..e], s[e + 2..])) else None
  }

  /** The continuation lines at the head of `s`, each folded to one space and its text. */
  function Folded(s: string): (r: Option<(string, string)>)
    ensures r.Some? ==> |r.value.1| <= |s| && forall c :: c in r.value.0 ==> c !in EOL
    decreases |s|
  {
    if s == "" || !IsBlank(s[0]) then Some(("", s))
    else
      match TextLine(SkipBlanks(s))
      case None => None
      case Some((text, next)) =>
        match Folded(next)
        case None => None
        case Some((more, rest)) => Some((" " + text + more, rest))
  }

  function ParseLine(s: string): (r: Option<(Header, string)>)
    ensures r.Some? ==> |r.value.1| < |s| && Clean(r.value.0)
  {
    var n := Span(s, NAME_STOP);
    if n == 0 || n == |s| || s[n] != ':' then None
    else
      match TextLine(SkipBlanks(s[n + 1..]))
      case None => None
      case Some((text, next)) =>
        match Folded(next)
        case None => None
        case Some((more, rest)) => Some((Header(s[..n], text + more), rest))
  }

  function ParseBlock(s: string): (r: Option<(seq<Header>, string)>)
    ensures r.Some? ==> forall h :: h in r.value.0 ==> Clean(h)
    decreases |s|
  {
    if "\r\n" <= s then Some(([], s[2..]))
    else
      match ParseLine(s)
      case None => None
      case Some((h, next)) =>
        match ParseBlock(next)
        case None => None
        case Some((hs, rest)) => Some(([h] + hs, rest))
  }

  /** What every parsed header looks like. */
  predicate Clean(h: Header) {
    h.name != "" && (forall c :: c in h.name ==> c !in NAME_STOP) && (forall c :: c in h.value ==> c !in EOL)
  }

  predicate IsMessageId(h: Header) { EqIgnoreCase(h.name, "Message-ID") }

  function MapId(h: Header, f: string -> string): Header {
    if IsMessageId(h) then Header(h.name, f(h.value)) else h
  }

  function MapIds(headers: seq<Header>, f: string -> string): (r: seq<Header>)
    ensures |r| == |headers| && forall i :: 0 <= i < |r| ==> r[i] == MapId(headers[i], f)
  {
    seq(|headers|, i requires 0 <= i < |headers| => MapId(headers[i], f))
  }

  function Parse(s: string): Option<Message> {
    match ParseBlock(s)
    case None => None
    case Some((headers, body)) => Some(Message(MapIds(headers, MessageId.Unescape), body))
  }

  function EscapeIds(msg: Message): Message {
    msg.(headers := MapIds(msg.headers, MessageId.Escape))
  }

  // ---- The program's loops ----

  method ParseHeaderLine(input: string) returns (r: Option<(Header, string)>)
    ensures r == ParseLine(input)
    ensures forall h: Header, rest: string :: r == Some((h, rest)) <==> FoldedAs(input, h, rest)
  {
    forall h: Header, rest: string
      ensures ParseLine(input) == Some((h, rest)) <==> FoldedAs(input, h, rest)
    {
      ParseLineExactly(input, h, rest);
    }
    hide FoldedAs;
    var n := Span(input, NAME_STOP);
    if n == 0 || n == |input| || input[n] != ':' {
      return None;
    }
    var name := input[..n];
    var value := TextLine(SkipBlanks(input[n + 1..]));
    if value.None? {
      return None;
    }
    var val, i := value.value.0, value.value.1;
    ghost var first, folded := val, Folded(i);
    while i != "" && IsBlank(i[0])
      invariant Folded(i).None? <==> folded.None?
      invariant folded.Some? ==>
                first + folded.value.0 == val + Folded(i).value.0 && folded.value.1 == Folded(i).value.1
      decreases |i|
    {
      var cont := TextLine(SkipBlanks(i));
      if cont.None? {
        return None;
      }
      ghost var before, at := val, i;
      val := val + " ";
      val := val + cont.value.0;
      i := cont.value.1;
      if Folded(i).Some? {
        Assoc(before, " ", cont.value.0);
        Assoc(before, " " + cont.value.0, Folded(i).value.0);
      }
    }
    assert val + "" == val;
    return Some((Header(name, val), i));
  }

  method ParseHeaders(start: string) returns (r: Option<(seq<Header>, string)>)
    ensures r == ParseBlock(start)
  {
    var input, headers := start, [];
    while true
      invariant ParseBlock(input).None? <==> ParseBlock(start).None?
      invariant ParseBlock(start).Some? ==>
                ParseBlock(start).value.0 == headers + ParseBlock(input).value.0
                && ParseBlock(start).value.1 == ParseBlock(input).value.1
      decreases |input|
    {
      if "\r\n" <= input {
        assert headers + [] == headers;
        input := input[2..];
        break;
      }
      var line := ParseHeaderLine(input);
      if line.None? {
        return None;
      }
      if ParseBlock(line.value.1).Some? {
        Assoc(headers, [line.value.0], ParseBlock(line.value.1).value.0);
      }
      headers := headers + [line.value.0];
      input := line.value.1;
    }
    return Some((headers, input));
  }

  method ParseMessage(input: string) returns (r: Option<Message>)
    ensures r == Parse(input)
  {
    var parsed := ParseHeaders(input);
    if parsed.None? {
      return None;
    }
    var headers := parsed.value.0;
    ghost var asRead := headers;
    for i := 0 to |headers|
      invariant |headers| == |asRead|
      invariant forall k :: 0 <= k < i ==> headers[k] == MapId(asRead[k], MessageId.Unescape)
      invariant forall k :: i <= k < |headers| ==> headers[k] == asRead[k]
    {
      if EqIgnoreCase(headers[i].name, "Message-ID") {
        var id := MessageId.UnescapeMessageId(headers[i].value);
        headers := headers[i := headers[i].(value := id)];
      }
    }
    assert headers == MapIds(asRead, MessageId.Unescape);
    return Some(Message(headers, parsed.value.1));
  }

  method EscapeMessageIdHeader(msg: Message) returns (r: Message)
    ensures r == EscapeIds(msg)
    ensures r.body == msg.body && |r.headers| == |msg.headers|
    ensures forall k :: 0 <= k < |r.headers| ==>
              r.headers[k].name == msg.headers[k].name
              && r.headers[k].value == if EqIgnoreCase(msg.headers[k].name, "Message-ID")
                                       then MessageId.Escape(msg.headers[k].value) else msg.headers[k].value
  {
    var headers := msg.headers;
    for i := 0 to |headers|
      invariant |headers| == |msg.headers|
      invariant forall k :: 0 <= k < i ==> headers[k] == MapId(msg.headers[k], MessageId.Escape)
      invariant forall k :: i <= k < |headers| ==> headers[k] == msg.headers[k]
    {
      if EqIgnoreCase(headers[i].name, "Message-ID") {
        var id := MessageId.EscapeMessageId(headers[i].value);
        headers := headers[i := headers[i].(value := id)];
      }
    }
    assert headers == MapIds(msg.headers, MessageId.Escape);
    r := msg.(headers := headers);
  }

  // ---- Folded header lines, as they are written ----

  /** A further line: the blanks that it starts with, and its text. */
  datatype Continuation = Continuation(blanks: string, text: string)

  predicate AllBlank(s: string) { forall c :: c in s ==> c == ' ' || c == '\t' }

  /** A text on one line that does not start with a blank. */
  predicate LineText(s: string) {
    (forall c :: c in s ==> c != '\r' && c != '\n') && (s == "" || (s[0] != ' ' && s[0] != '\t'))
  }

  predicate Continues(cs: seq<Continuation>) {
    forall c :: c in cs ==> c.blanks != "" && AllBlank(c.blanks) && LineText(c.text)
  }

  function PrintFolds(cs: seq<Continuation>): string {
    if cs == [] then "" else cs[0].blanks + (cs[0].text + ("\r\n" + PrintFolds(cs[1..])))
  }

  /** A header on its first line and its continuation lines. */
  function PrintFolded(name: string, blanks: string, first: string, cs: seq<Continuation>): string {
    name + (":" + (blanks + (first + ("\r\n" + PrintFolds(cs)))))
  }

  /** The texts of all lines with one space between them. */
  function Unfolded(first: string, cs: seq<Continuation>): string
    decreases |cs|
  {
    if cs == [] then first else Unfolded(first + " " + cs[0].text, cs[1..])
  }

  predicate Name(s: string) { s != "" && forall c :: c in s ==> c != ':' && c != '\r' && c != '\n' }

  predicate Unblank(s: string) { s == "" || (s[0] != ' ' && s[0] != '\t') }

  /** The parts of a folded header in front of further input. */
  ghost predicate Folds(s: string, name: string, blanks: string, first: string, cs: seq<Continuation>, rest: string) {
    Name(name) && AllBlank(blanks) && LineText(first) && Continues(cs) && Unblank(rest)
    && s == PrintFolded(name, blanks, first, cs) + rest
  }

  /** The text is the header folded in some way, in front of the rest. */
  ghost predicate FoldedAs(s: string, h: Header, rest: string) {
    exists blanks, first, cs :: Folds(s, h.name, blanks, first, cs, rest) && h.value == Unfolded(first, cs)
  }

  lemma {:induction false} SkipsBlanks(blanks: string, t: string)
    requires AllBlank(blanks) && Unblank(t)
    ensures SkipBlanks(blanks + t) == t
  {
    if blanks == "" {
      assert blanks + t == t;
    } else {
      assert (blanks + t)[1..] == blanks[1..] + t && blanks[0] in blanks;
      assert forall c :: c in blanks[1..] ==> c in blanks;
      SkipsBlanks(blanks[1..], t);
    }
  }

  lemma {:induction false} SkippedBlanks(s: string) returns (blanks: string)
    ensures AllBlank(blanks) && s == blanks + SkipBlanks(s) && Unblank(SkipBlanks(s))
    ensures s != "" && IsBlank(s[0]) ==> blanks != ""
  {
    if s != "" && IsBlank(s[0]) {
      var more := SkippedBlanks(s[1..]);
      blanks := [s[0]] + more;
      assert s == [s[0]] + s[1..];
    } else {
      blanks := "";
    }
  }

  lemma {:induction false} SpanOver(text: string, t: string, stop: set<char>)
    requires (forall c :: c in text ==> c !in stop) && t != "" && t[0] in stop
    ensures Span(text + t, stop) == |text|
  {
    if text == "" {
      assert text + t == t;
    } else {
      assert (text + t)[1..] == text[1..] + t;
      SpanOver(text[1..], t, stop);
    }
  }

  lemma TextLineOf(text: string, next: string)
    requires LineText(text)
    ensures TextLine(text + ("\r\n" + next)) == Some((text, next))
  {
    var t := "\r\n" + next;
    SpanOver(text, t, EOL);
    assert (text + t)[..|text|] == text && (text + t)[|text|..] == t;
    assert (text + t)[|text| + 2..] == next;
  }

  lemma TextLineParts(s: string)
    requires TextLine(s).Some?
    ensures s == TextLine(s).value.0 + ("\r\n" + TextLine(s).value.1)
    ensures Unblank(s) ==> LineText(TextLine(s).value.0)
  {
    var e := Span(s, EOL);
    assert s[e..][..2] == "\r\n" && s[e..][2..] == s[e + 2..];
    assert s == s[..e] + s[e..];
  }

  lemma Regroup(a: string, b: string, c: string, d: string, e: string)
    ensures (a + (b + (c + d))) + e == a + (b + (c + (d + e)))
  {
    Assoc(c, d, e);
    Assoc(b, c + d, e);
    Assoc(a, b + (c + d), e);
  }

  lemma FoldLine(c: Continuation, lines: string, rest: string, tail: string)
    requires c.blanks != "" && AllBlank(c.blanks) && LineText(c.text) && Folded(lines + rest) == Some((tail, rest))
    ensures Folded(c.blanks + (c.text + ("\r\n" + lines)) + rest) == Some((" " + c.text + tail, rest))
  {
    var text := c.text + ("\r\n" + (lines + rest));
    Regroup(c.blanks, c.text, "\r\n", lines, rest);
    TextLineOf(c.text, lines + rest);
    SkipsBlanks(c.blanks, text);
    hide SkipBlanks, TextLine, LineText;
    assert c.blanks[0] in c.blanks && (c.blanks + text)[0] == c.blanks[0];
  }

  lemma FoldsCons(first: string, cs: seq<Continuation>, tail: string)
    requires cs != [] && (first + " " + cs[0].text) + tail == Unfolded(first + " " + cs[0].text, cs[1..])
    ensures first + (" " + cs[0].text + tail) == Unfolded(first, cs)
  {
    Assoc(first, " ", cs[0].text);
    Assoc(first, " " + cs[0].text, tail);
  }

  lemma {:induction false} FoldsRead(first: string, cs: seq<Continuation>, rest: string) returns (more: string)
    requires Continues(cs) && Unblank(rest)
    ensures Folded(PrintFolds(cs) + rest) == Some((more, rest)) && first + more == Unfolded(first, cs)
    decreases |cs|
  {
    if cs == [] {
      assert PrintFolds(cs) + rest == rest && first + "" == first;
      more := "";
    } else {
      var tail := FoldsRead(first + " " + cs[0].text, cs[1..], rest);
      hide Folded, LineText, AllBlank, Unfolded;
      FoldLine(cs[0], PrintFolds(cs[1..]), rest, tail);
      FoldsCons(first, cs, tail);
      more := " " + cs[0].text + tail;
    }
  }

  lemma PrintedParts(name: string, blanks: string, first: string, cs: seq<Continuation>, rest: string)
    ensures PrintFolded(name, blanks, first, cs) + rest
         == name + (":" + (blanks + (first + ("\r\n" + (PrintFolds(cs) + rest)))))
  {
    var lines := PrintFolds(cs);
    Regroup(blanks, first, "\r\n", lines, rest);
    Assoc(":", blanks + (first + ("\r\n" + lines)), rest);
    Assoc(name, ":" + (blanks + (first + ("\r\n" + lines))), rest);
  }

  /** A name ends at its colon. */
  lemma NameRead(name: string, after: string)
    requires Name(name)
    ensures var s := name + (":" + after);
            Span(s, NAME_STOP) == |name| && s[..|name|] == name && s[|name|] == ':' && s[|name| + 1..] == after
  {
    SpanOver(name, ":" + after, NAME_STOP);
  }

  /** Whatever its blanks, a folded header is read as its name and the texts of all its lines. */
  lemma FoldedLineRead(name: string, blanks: string, first: string, cs: seq<Continuation>, rest: string)
    requires Folds(PrintFolded(name, blanks, first, cs) + rest, name, blanks, first, cs, rest)
    ensures ParseLine(PrintFolded(name, blanks, first, cs) + rest) == Some((Header(name, Unfolded(first, cs)), rest))
  {
    var lines := PrintFolds(cs) + rest;
    var text := first + ("\r\n" + lines);
    PrintedParts(name, blanks, first, cs, rest);
    NameRead(name, blanks + text);
    SkipsBlanks(blanks, text);
    TextLineOf(first, lines);
    var more := FoldsRead(first, cs, rest);
    hide SkipBlanks, TextLine, Folded, PrintFolds, PrintFolded, LineText, Continues, AllBlank, Unfolded, Name, Span;
  }

  lemma {:induction false} FoldedParts(s: string) returns (cs: seq<Continuation>)
    requires Folded(s).Some?
    ensures Continues(cs) && Unblank(Folded(s).value.1) && s == PrintFolds(cs) + Folded(s).value.1
    decreases |s|
  {
    if s == "" || !IsBlank(s[0]) {
      cs := [];
      assert PrintFolds(cs) + s == s;
    } else {
      var blanks := SkippedBlanks(s);
      var t := SkipBlanks(s);
      TextLineParts(t);
      var (text, next) := TextLine(t).value;
      var more := FoldedParts(next);
      var rest := Folded(next).value.1;
      hide Folded, TextLine, SkipBlanks, AllBlank, LineText;
      cs := PrependFold(Continuation(blanks, text), more);
      Regroup(blanks, text, "\r\n", PrintFolds(more), rest);
    }
  }

  lemma PrependFold(c: Continuation, more: seq<Continuation>) returns (cs: seq<Continuation>)
    requires c.blanks != "" && AllBlank(c.blanks) && LineText(c.text) && Continues(more)
    ensures cs == [c] + more && Continues(cs)
    ensures PrintFolds(cs) == c.blanks + (c.text + ("\r\n" + PrintFolds(more)))
  {
    cs := [c] + more;
    assert cs[1..] == more;
  }

  lemma NameParts(s: string)
    requires ParseLine(s).Some?
    ensures var name, n := ParseLine(s).value.0.name, Span(s, NAME_STOP);
            n < |s| && name == s[..n] && Name(name) && s == name + (":" + s[n + 1..])
  {
    hide SkipBlanks, TextLine, Folded, Span;
    Cut(s, Span(s, NAME_STOP));
  }

  lemma ParsedParts(s: string) returns (blanks: string, first: string, cs: seq<Continuation>)
    requires ParseLine(s).Some?
    ensures Folds(s, ParseLine(s).value.0.name, blanks, first, cs, ParseLine(s).value.1)
  {
    NameParts(s);
    var after := s[Span(s, NAME_STOP) + 1..];
    blanks := SkippedBlanks(after);
    TextLineParts(SkipBlanks(after));
    hide Name, AllBlank, LineText, Span, TextLine, SkipBlanks, Folded, PrintFolded;
    var next := TextLine(SkipBlanks(after)).value.1;
    first := TextLine(SkipBlanks(after)).value.0;
    cs := FoldedParts(next);
    PrintedParts(ParseLine(s).value.0.name, blanks, first, cs, Folded(next).value.1);
  }

  /** A header is read exactly from a text that is the header folded in some way, in front of
      input that does not start with a blank; anything else is an error. */
  lemma ParseLineExactly(s: string, h: Header, rest: string)
    ensures ParseLine(s) == Some((h, rest)) <==> FoldedAs(s, h, rest)
  {
    if ParseLine(s) == Some((h, rest)) {
      var blanks, first, cs := ParsedParts(s);
      FoldedLineRead(h.name, blanks, first, cs, rest);
    }
    if blanks, first, cs :| Folds(s, h.name, blanks, first, cs, rest) && h.value == Unfolded(first, cs) {
      FoldedLineRead(h.name, blanks, first, cs, rest);
    }
  }
}
