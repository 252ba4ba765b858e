/** One article over one connection: written by the sending site, read, parsed
    and re-escaped by the receiving one. */
module Relay {
  import opened Text
  import opened Wire
  import opened HeaderParser
  import M = MessageId

  /** What the receiver makes of its input, and the input it leaves unread. */
  function Received(input: string): Option<(Message, string)> {
    if !HasTerminator(input) then None
    else
      match Parse(Block(input).0)
      case None => None
      case Some(msg) => Some((EscapeIds(msg), Block(input).1))
  }

  predicate HasHeader(hs: seq<Header>, name: string) { exists h :: h in hs && EqIgnoreCase(h.name, name) }

  /** Adds a header when none of that name is present. */
  function Ensured(msg: Message, name: string, value: string): Message {
    if HasHeader(msg.headers, name) then msg else msg.(headers := msg.headers + [Header(name, value)])
  }

  /** What a handler makes of a text it has read, with a Message-ID and a Date made up when missing. */
  function Prepared(text: string, newId: string, now: string): Option<Message> {
    match Parse(text)
    case None => None
    case Some(msg) => Some(EscapeIds(Ensured(Ensured(msg, "Message-ID", newId), "Date", now)))
  }

  /** The article that a transfer hands on. */
  function Accepted(input: string, newId: string, now: string): Option<Message> {
    if HasTerminator(input) then Prepared(Block(input).0, newId, now) else None
  }

  method EnsureHeader(msg: Message, name: string, value: string) returns (r: Message)
    ensures r == Ensured(msg, name, value)
    ensures r.body == msg.body
    ensures r.headers == msg.headers
                         + if forall k :: 0 <= k < |msg.headers| ==> !EqIgnoreCase(msg.headers[k].name, name)
                           then [Header(name, value)] else []
  {
    if exists h :: h in msg.headers && EqIgnoreCase(h.name, name) {
      return msg;
    }
    return msg.(headers := msg.headers + [Header(name, value)]);
  }

  method PrepareArticle(text: string, newId: string, now: string) returns (r: Option<Message>)
    ensures r == Prepared(text, newId, now)
    ensures r.None? <==> Parse(text).None?
    ensures r.Some? ==> PreparedFrom(Parse(text).value, newId, now, r.value)
  {
    var article := ParseMessage(text);
    if article.None? {
      return None;
    }
    var withId := EnsureHeader(article.value, "Message-ID", newId);
    var dated := EnsureHeader(withId, "Date", now);
    var escaped := EscapeMessageIdHeader(dated);
    NamesDiffer();
    return Some(escaped);
  }

  /** The headers as read, then the Message-ID and the Date that are missing; every Message-ID is
      escaped, and nothing else is changed. */
  ghost predicate PreparedFrom(read: Message, newId: string, now: string, r: Message) {
    var idMissing := forall h :: h in read.headers ==> !EqIgnoreCase(h.name, "Message-ID");
    var dateMissing := forall h :: h in read.headers ==> !EqIgnoreCase(h.name, "Date");
    var all := read.headers + (if idMissing then [Header("Message-ID", newId)] else [])
               + (if dateMissing then [Header("Date", now)] else []);
    r.body == read.body && |r.headers| == |all|
    && forall k :: 0 <= k < |all| ==>
         r.headers[k].name == all[k].name
         && r.headers[k].value == if EqIgnoreCase(all[k].name, "Message-ID") then M.Escape(all[k].value) else all[k].value
  }

  lemma NamesDiffer()
    ensures !EqIgnoreCase("Message-ID", "Date")
  {
    assert |Lower("Message-ID")| != |Lower("Date")|;
  }

  method ReceiveArticle(reader: LineReader, newId: string, now: string) returns (r: Option<Message>)
    requires HasTerminator(reader.pending)
    modifies reader
    ensures r == Accepted(old(reader.pending), newId, now) && reader.pending == Block(old(reader.pending)).1
  {
    var msg := ReadMessage(reader);
    r := PrepareArticle(msg, newId, now);
  }

  lemma HeadersKeepNames(msg: Message, name: string)
    ensures HasHeader(EscapeIds(msg).headers, name) <==> HasHeader(msg.headers, name)
  {
    var e := EscapeIds(msg).headers;
    assert forall i :: 0 <= i < |e| ==> e[i].name == msg.headers[i].name;
    if HasHeader(msg.headers, name) {
      var i :| 0 <= i < |e| && EqIgnoreCase(msg.headers[i].name, name);
      assert e[i] in e;
    }
    if HasHeader(e, name) {
      var i :| 0 <= i < |e| && EqIgnoreCase(e[i].name, name);
      assert msg.headers[i] in msg.headers;
    }
  }

  lemma AcceptedIsReceived(input: string, newId: string, now: string)
    requires Received(input).Some?
    requires HasHeader(Received(input).value.0.headers, "Message-ID")
    requires HasHeader(Received(input).value.0.headers, "Date")
    ensures Accepted(input, newId, now) == Some(Received(input).value.0)
  {
    var msg := Parse(Block(input).0).value;
    HeadersKeepNames(msg, "Message-ID");
    HeadersKeepNames(msg, "Date");
  }

  // ---- Which headers cross the wire ----

  /** A Message-ID in the form the printer gives a printable identifier. */
  ghost predicate StoredForm(v: string) {
    exists id :: M.Printable(id) && v == M.Escape(id)
  }

  ghost predicate HeaderSafe(h: Header, first: bool) {
    Clean(h) && !(".." <= h.name) && (first || !IsBlank(h.name[0]))
    && if IsMessageId(h) then StoredForm(h.value) else h.value == "" || !IsBlank(h.value[0])
  }

  ghost predicate WireSafe(headers: seq<Header>) {
    forall i :: 0 <= i < |headers| ==> HeaderSafe(headers[i], i == 0)
  }

  predicate AllClean(headers: seq<Header>) { forall h :: h in headers ==> Clean(h) }

  // ---- Message-IDs ----

  lemma UnescapedIsTrimmed(v: string)
    ensures Trim(M.Unescape(v)) == M.Unescape(v)
  {
    TrimIsTrimmed(v);
    if M.Angled(Trim(v)) { M.WrapInner(M.Emit(M.Outside, M.Inner(Trim(v)))); }
  }

  lemma StoredFormExactly(v: string)
    ensures StoredForm(v) <==> M.Rewritten(v) == v
  {
    if StoredForm(v) {
      var id :| M.Printable(id) && v == M.Escape(id);
      M.RoundTrip(id);
    }
    if M.Rewritten(v) == v {
      UnescapedIsTrimmed(v);
      M.StoredFormStable(M.Unescape(v));
    }
  }

  lemma {:induction false} SkipBlanksThenTrim(v: string)
    ensures Trim(SkipBlanks(v)) == Trim(v)
  {
    if v != "" && IsBlank(v[0]) { SkipBlanksThenTrim(v[1..]); }
  }

  lemma {:induction false} BackslashedChars(s: string, special: set<char>)
    ensures forall c :: c in M.Backslashed(s, special) ==> c in s || c == '\\'
  {
    if s != "" { BackslashedChars(s[1..], special); }
  }

  predicate OneLine(s: string) { forall c :: c in s ==> c !in EOL }

  lemma EscapedLeftOneLine(left: string)
    requires OneLine(left)
    ensures OneLine(M.EscapeLeft(left))
  {
    BackslashedChars(left, {'"', '\\'});
  }

  lemma EscapedRightOneLine(right: string)
    requires OneLine(right)
    ensures OneLine(M.EscapeRight(right))
  {
    if M.Literal(right) {
      BackslashedChars(right[1..|right| - 1], {'\\', ']', '['});
    }
  }

  lemma EscapedOneLine(inner: string)
    requires OneLine(inner)
    ensures OneLine(M.EscapeInner(inner))
  {
    hide M.EscapeLeft, M.EscapeRight;
    var i := IndexOf(inner, '@');
    if i < |inner| {
      EscapedLeftOneLine(inner[..i]);
      EscapedRightOneLine(inner[i + 1..]);
      assert OneLine("@" + M.EscapeRight(inner[i + 1..]));
    }
  }

  lemma WrapOneLine(inner: string)
    requires OneLine(inner)
    ensures OneLine(M.Wrap(inner))
  {
    assert OneLine("<" + inner);
  }

  lemma EscapeOneLine(id: string)
    requires OneLine(id)
    ensures OneLine(M.Escape(id))
  {
    TrimIsTrimmed(id);
    if M.Angled(Trim(id)) {
      EscapedOneLine(M.Inner(Trim(id)));
      WrapOneLine(M.EscapeInner(M.Inner(Trim(id))));
    }
  }

  lemma UnescapedOneLine(v: string)
    requires OneLine(v)
    ensures OneLine(M.Unescape(v))
  {
    TrimIsTrimmed(v);
    var t := Trim(v);
    if M.Angled(t) {
      M.EmitShortens(M.Outside, M.Inner(t));
      WrapOneLine(M.Emit(M.Outside, M.Inner(t)));
    }
  }

  lemma RewrittenOneLine(v: string)
    requires OneLine(v)
    ensures OneLine(M.Rewritten(v))
  {
    UnescapedOneLine(v);
    EscapeOneLine(M.Unescape(v));
  }

  lemma RewrittenNoBlank(v: string)
    ensures M.Rewritten(v) == "" || !IsBlank(M.Rewritten(v)[0])
    ensures M.Rewritten(SkipBlanks(v)) == M.Rewritten(v)
  {
    SkipBlanksThenTrim(v);
    TrimIsTrimmed(M.Unescape(v));
  }

  // ---- Reading header lines back ----

  lemma {:induction false} SpanAt(a: string, b: string, stop: set<char>)
    requires (forall c :: c in a ==> c !in stop) && b != "" && b[0] in stop
    ensures Span(a + b, stop) == |a| && (a + b)[..|a|] == a && (a + b)[|a|..] == b
  {
    if a == "" {
      assert a + b == b;
    } else {
      assert (a + b)[1..] == a[1..] + b;
      SpanAt(a[1..], b, stop);
    }
  }

  lemma {:induction false} SkipBlanksLine(text: string, t: string)
    ensures SkipBlanks(text + ("\r\n" + t)) == SkipBlanks(text) + ("\r\n" + t)
    ensures forall c :: c in SkipBlanks(text) ==> c in text
  {
    var s := text + ("\r\n" + t);
    if text == "" {
      assert s == "\r\n" + t;
    } else if IsBlank(text[0]) {
      assert s[1..] == text[1..] + ("\r\n" + t);
      SkipBlanksLine(text[1..], t);
    }
  }

  lemma TextLineAt(text: string, t: string)
    requires OneLine(text)
    ensures TextLine(SkipBlanks(text + ("\r\n" + t))) == Some((SkipBlanks(text), t))
  {
    SkipBlanksLine(text, t);
    var b := "\r\n" + t;
    SpanAt(SkipBlanks(text), b, EOL);
    assert b[2..] == t;
    assert (SkipBlanks(text) + b)[|SkipBlanks(text)| + 2..] == b[2..];
  }

  function Content(h: Header): string { h.name + ": " + h.value }

  lemma LineShape(h: Header, t: string)
    ensures HeaderLine(h) + t == Content(h) + ("\r\n" + t)
    ensures HeaderLine(h) + t == h.name + (":" + (" " + h.value + ("\r\n" + t)))
  {
    Assoc(Content(h), "\r\n", t);
    assert Content(h) == h.name + (":" + (" " + h.value));
  }

  lemma ContentOneLine(h: Header)
    requires Clean(h)
    ensures OneLine(Content(h))
  {
    assert OneLine(h.name) && OneLine(": ") && OneLine(h.name + ": ");
  }

  lemma BlankFirst(t: string)
    ensures SkipBlanks(" " + t) == SkipBlanks(t)
  {
    assert (" " + t)[1..] == t;
  }

  /** A header line is read as its own header, plus whatever the next lines fold into it. */
  lemma ParseLineAt(h: Header, t: string)
    requires Clean(h)
    ensures ParseLine(HeaderLine(h) + t) ==
            match Folded(t)
            case None => None
            case Some((more, rest)) => Some((Header(h.name, SkipBlanks(h.value) + more), rest))
  {
    hide HeaderLine, Folded, TextLine;
    var s := HeaderLine(h) + t;
    LineShape(h, t);
    var b := " " + h.value + ("\r\n" + t);
    SpanAt(h.name, ":" + b, NAME_STOP);
    assert s[|h.name| + 1..] == (":" + b)[1..] == b;
    BlankFirst(h.value + ("\r\n" + t));
    Assoc(" ", h.value, "\r\n" + t);
    hide SkipBlanks;
    TextLineAt(h.value, t);
  }

  /** A header line whose name starts with a blank is read as a continuation. */
  lemma FoldedAt(h: Header, t: string)
    requires Clean(h) && IsBlank(h.name[0])
    ensures Folded(t).None? ==> Folded(HeaderLine(h) + t).None?
    ensures Folded(t).Some? ==> Folded(HeaderLine(h) + t).Some?
                                && Folded(HeaderLine(h) + t).value.1 == Folded(t).value.1
  {
    LineShape(h, t);
    ContentOneLine(h);
    TextLineAt(Content(h), t);
  }

  /** How many headers at the front would fold into a line before them. */
  function Folding(hs: seq<Header>): (k: nat)
    ensures k <= |hs|
  {
    if hs == [] || hs[0].name == "" || !IsBlank(hs[0].name[0]) then 0 else 1 + Folding(hs[1..])
  }

  lemma {:induction false} FoldedBlock(hs: seq<Header>, body: string)
    requires AllClean(hs)
    ensures var k := Folding(hs);
            var f := Folded(HeaderBlock(hs) + ("\r\n" + body));
            f.Some? && f.value.1 == HeaderBlock(hs[k..]) + ("\r\n" + body) && (k == 0 ==> f.value.0 == "")
  {
    var end := "\r\n" + body;
    if hs == [] {
      assert HeaderBlock(hs) + end == end;
    } else {
      Assoc(HeaderLine(hs[0]), HeaderBlock(hs[1..]), end);
      assert hs[0] in hs;
      if IsBlank(hs[0].name[0]) {
        FoldedBlock(hs[1..], body);
        FoldedAt(hs[0], HeaderBlock(hs[1..]) + end);
        assert hs[1..][Folding(hs[1..])..] == hs[Folding(hs)..];
      } else {
        LineShape(hs[0], HeaderBlock(hs[1..]) + end);
        assert hs[0..] == hs;
      }
    }
  }

  predicate SomeFold(hs: seq<Header>) { exists i :: 0 < i < |hs| && hs[i].name != "" && IsBlank(hs[i].name[0]) }

  lemma {:induction false} FoldedStops(s: string)
    requires Folded(s).Some?
    ensures Folded(s).value.1 == "" || !IsBlank(Folded(s).value.1[0])
    decreases |s|
  {
    if s != "" && IsBlank(s[0]) { FoldedStops(TextLine(SkipBlanks(s)).value.1); }
  }

  lemma ParseLineStops(s: string)
    requires ParseLine(s).Some?
    ensures var (h, next) := ParseLine(s).value;
            s != "" && h.name != "" && h.name[0] == s[0] && (next == "" || !IsBlank(next[0]))
  {
    hide Folded, TextLine, SkipBlanks;
    var n := Span(s, NAME_STOP);
    FoldedStops(TextLine(SkipBlanks(s[n + 1..])).value.1);
  }

  /** No header that is parsed starts with a blank, but for the very first. */
  lemma {:induction false} ParsedNeverFolds(s: string)
    requires ParseBlock(s).Some?
    ensures var hs := ParseBlock(s).value.0;
            !SomeFold(hs) && (hs != [] ==> s != "" && hs[0].name != "" && hs[0].name[0] == s[0])
    decreases |s|
  {
    hide ParseLine, SomeFold;
    if "\r\n" <= s {
      NoFold([]);
    } else {
      var (h, next) := ParseLine(s).value;
      ParseLineStops(s);
      ParsedNeverFolds(next);
      FoldCons(h, ParseBlock(next).value.0);
    }
  }

  lemma NoFold(hs: seq<Header>)
    requires |hs| < 2
    ensures !SomeFold(hs)
  {
  }

  lemma FoldCons(h: Header, rest: seq<Header>)
    requires !SomeFold(rest) && (rest != [] ==> rest[0].name != "" && !IsBlank(rest[0].name[0]))
    ensures !SomeFold([h] + rest)
  {
    var hs := [h] + rest;
    forall i | 0 < i < |hs|
      ensures hs[i].name == "" || !IsBlank(hs[i].name[0])
    {
      assert hs[i] == rest[i - 1];
    }
  }

  function Skipped(hs: seq<Header>): (r: seq<Header>)
    ensures |r| == |hs| && forall i :: 0 <= i < |r| ==> r[i] == Header(hs[i].name, SkipBlanks(hs[i].value))
  {
    seq(|hs|, i requires 0 <= i < |hs| => Header(hs[i].name, SkipBlanks(hs[i].value)))
  }

  /** Clean headers are read back one for one, or, when one folds, as fewer. */
  lemma {:induction false} ParseBlockAt(hs: seq<Header>, body: string)
    requires AllClean(hs)
    ensures var r := ParseBlock(HeaderBlock(hs) + ("\r\n" + body));
            r.Some? && |r.value.0| <= |hs|
            && (!SomeFold(hs) ==> r.value == (Skipped(hs), body))
            && (SomeFold(hs) ==> |r.value.0| < |hs|)
    decreases |hs|
  {
    var end := "\r\n" + body;
    if hs == [] {
      assert HeaderBlock(hs) + end == end && end[2..] == body;
    } else {
      var h, tail := hs[0], HeaderBlock(hs[1..]) + end;
      assert h in hs;
      Assoc(HeaderLine(h), HeaderBlock(hs[1..]), end);
      ParseBlockStep(h, tail);
      FoldedBlock(hs[1..], body);
      var k := Folding(hs[1..]);
      var left := hs[1..][k..];
      ParseBlockAt(left, body);
      if k == 0 {
        assert left == hs[1..];
        SomeFoldTail(hs);
        SkippedCons(hs);
      } else {
        assert hs[1] == hs[1..][0];
        assert SomeFold(hs);
      }
    }
  }

  lemma SkippedCons(hs: seq<Header>)
    requires hs != []
    ensures Skipped(hs) == [Header(hs[0].name, SkipBlanks(hs[0].value) + "")] + Skipped(hs[1..])
  {
    assert SkipBlanks(hs[0].value) + "" == SkipBlanks(hs[0].value);
  }

  lemma ParseBlockStep(h: Header, t: string)
    requires Clean(h)
    ensures ParseBlock(HeaderLine(h) + t) ==
            match Folded(t)
            case None => None
            case Some((more, next)) =>
              match ParseBlock(next)
              case None => None
              case Some((hs, rest)) => Some(([Header(h.name, SkipBlanks(h.value) + more)] + hs, rest))
  {
    var s := HeaderLine(h) + t;
    ParseLineAt(h, t);
    assert s[0] == h.name[0] && h.name[0] in h.name;
  }

  lemma SomeFoldTail(hs: seq<Header>)
    requires hs != [] && Folding(hs[1..]) == 0
    ensures SomeFold(hs) <==> SomeFold(hs[1..])
  {
    var t := hs[1..];
    if SomeFold(hs) {
      var i :| 0 < i < |hs| && hs[i].name != "" && IsBlank(hs[i].name[0]);
      assert t[i - 1] == hs[i];
    }
    if SomeFold(t) {
      var i :| 0 < i < |t| && t[i].name != "" && IsBlank(t[i].name[0]);
      assert hs[i + 1] == t[i];
    }
  }

  // ---- Unstuffing header lines ----

  /** Header lines are sent unstuffed, so a name that starts with two dots loses one. */
  function Undotted(hs: seq<Header>): (r: seq<Header>)
    ensures |r| == |hs| && forall i :: 0 <= i < |r| ==> r[i] == Header(Unstuffed(hs[i].name), hs[i].value)
  {
    seq(|hs|, i requires 0 <= i < |hs| => Header(Unstuffed(hs[i].name), hs[i].value))
  }

  lemma HeaderLineRead(h: Header, t: string)
    requires Clean(h) && HasTerminator(t)
    ensures var s := HeaderLine(h) + t;
            HasTerminator(s)
            && Block(s) == (HeaderLine(Header(Unstuffed(h.name), h.value)) + Block(t).0, Block(t).1)
  {
    ContentOneLine(h);
    LineShape(h, t);
    Assoc(Content(h), "\r\n", t);
    FirstCrlfLine(Content(h), t);
    UnstuffedHeader(h);
    Assoc(Unstuffed(HeaderLine(h)), Block(t).0, "");
  }

  lemma UnstuffedHeader(h: Header)
    requires Clean(h)
    ensures !IsTerminator(HeaderLine(h))
    ensures Unstuffed(HeaderLine(h)) == HeaderLine(Header(Unstuffed(h.name), h.value))
  {
    var line := HeaderLine(h);
    var n := h.name;
    assert line[|n|] == ':' && line[0] == n[0] && (|n| > 1 ==> line[1] == n[1]);
    assert ':' in line && ':' !in ".\r\n" && ':' !in ".\n";
    if |n| > 1 && n[0] == '.' && n[1] == '.' {
      assert line[1..] == n[1..] + ": " + h.value + "\r\n";
    }
  }

  lemma {:induction false} HeaderBlockRead(hs: seq<Header>, t: string)
    requires AllClean(hs) && HasTerminator(t)
    ensures var s := HeaderBlock(hs) + t;
            HasTerminator(s) && Block(s) == (HeaderBlock(Undotted(hs)) + Block(t).0, Block(t).1)
  {
    if hs == [] {
      assert HeaderBlock(hs) + t == t && HeaderBlock(Undotted(hs)) + Block(t).0 == Block(t).0;
    } else {
      BlockCons(hs);
      BlockCons(Undotted(hs));
      assert Undotted(hs)[1..] == Undotted(hs[1..]);
      hide HeaderBlock, HeaderLine, Unstuffed, HasTerminator, Block;
      HeaderBlockRead(hs[1..], t);
      Assoc(HeaderLine(hs[0]), HeaderBlock(hs[1..]), t);
      HeaderLineRead(hs[0], HeaderBlock(hs[1..]) + t);
      Assoc(HeaderLine(Undotted(hs)[0]), HeaderBlock(Undotted(hs[1..])), Block(t).0);
    }
  }

  lemma BlockCons(hs: seq<Header>)
    requires hs != []
    ensures HeaderBlock(hs) == HeaderLine(hs[0]) + HeaderBlock(hs[1..])
  {
  }

  /** What is read of an article with clean headers. */
  lemma WireRead(article: Message, rest: string)
    requires AllClean(article.headers)
    ensures var s := OnWire(article) + rest;
            HasTerminator(s)
            && Block(s) == (HeaderBlock(Undotted(article.headers)) + ("\r\n" + Normalised(article.body)), rest)
  {
    var block, body := HeaderBlock(article.headers), StuffedEnded(Lines(article.body));
    Framing(article.body, rest);
    var t := "\r\n" + (body + (".\r\n" + rest));
    FirstCrlfLine("", body + (".\r\n" + rest));
    assert "" + "\r\n" == "\r\n";
    Assoc("", "\r\n", body + (".\r\n" + rest));
    assert Block(t) == ("\r\n" + Normalised(article.body), rest);
    HeaderBlockRead(article.headers, t);
    Assoc(body, ".\r\n", rest);
    Assoc("\r\n", body + ".\r\n", rest);
    Assoc(block, "\r\n" + (body + ".\r\n"), rest);
  }

  lemma UndottedClean(hs: seq<Header>)
    requires AllClean(hs)
    ensures AllClean(Undotted(hs)) && SomeFold(Undotted(hs)) == SomeFold(hs)
  {
    forall i | 0 <= i < |hs|
      ensures Clean(Undotted(hs)[i])
      ensures Undotted(hs)[i].name[0] == hs[i].name[0]
    {
      assert hs[i] in hs;
    }
  }

  function Rewrite(h: Header): Header { MapId(h, M.Rewritten) }

  /** The receiver's headers, when none folds. */
  lemma ReceivedAt(article: Message, rest: string)
    requires AllClean(article.headers)
    ensures var hs := article.headers; var r := Received(OnWire(article) + rest);
            r.Some? && r.value.1 == rest
            && (SomeFold(hs) ==> |r.value.0.headers| < |hs|)
            && (!SomeFold(hs) ==>
                  r.value.0.body == Normalised(article.body) && |r.value.0.headers| == |hs|
                  && forall i :: 0 <= i < |hs| ==>
                       r.value.0.headers[i] == Rewrite(Header(Unstuffed(hs[i].name), SkipBlanks(hs[i].value))))
  {
    WireRead(article, rest);
    UndottedClean(article.headers);
    ParseBlockAt(Undotted(article.headers), Normalised(article.body));
  }

  // ---- The relay theorem ----

  /** Whatever follows on the connection, an article with wire-safe headers is received
      with the same headers and the normalised body, and nothing further is read. */
  lemma RelayRoundTrip(article: Message, rest: string)
    requires WireSafe(article.headers)
    ensures Received(OnWire(article) + rest) ==
            Some((Message(article.headers, Normalised(article.body)), rest))
  {
    var hs := article.headers;
    hide OnWire, Received, Normalised;
    assert AllClean(hs);
    assert !SomeFold(hs) by {
      forall i | 0 < i < |hs|
        ensures !IsBlank(hs[i].name[0])
      {
        assert HeaderSafe(hs[i], false);
      }
    }
    ReceivedAt(article, rest);
    var got := Received(OnWire(article) + rest).value.0.headers;
    forall i | 0 <= i < |hs|
      ensures got[i] == hs[i]
    {
      assert HeaderSafe(hs[i], i == 0);
      StoredFormExactly(hs[i].value);
      RewrittenNoBlank(hs[i].value);
    }
    assert got == hs;
  }

  /** Conversely, only wire-safe headers arrive as they were sent. */
  lemma RelayOnlySafe(article: Message, rest: string)
    requires Received(OnWire(article) + rest).Some?
    requires Received(OnWire(article) + rest).value.0.headers == article.headers
    ensures WireSafe(article.headers)
  {
    var hs := article.headers;
    ReceivedClean(OnWire(article) + rest);
    ReceivedAt(article, rest);
    forall i | 0 <= i < |hs|
      ensures HeaderSafe(hs[i], i == 0)
    {
      assert hs[i] in hs && hs[i] == Rewrite(Header(Unstuffed(hs[i].name), SkipBlanks(hs[i].value)));
      StoredFormExactly(hs[i].value);
      RewrittenNoBlank(hs[i].value);
    }
  }

  lemma ReceivedClean(input: string)
    requires Received(input).Some?
    ensures AllClean(Received(input).value.0.headers)
  {
    var parsed := ParseBlock(Block(input).0).value.0;
    var got := Received(input).value.0.headers;
    forall i | 0 <= i < |got|
      ensures Clean(got[i])
    {
      assert parsed[i] in parsed && got[i] == Rewrite(parsed[i]);
      RewrittenOneLine(parsed[i].value);
    }
  }

  /** A header whose name starts with two dots arrives with one. */
  lemma DotIsLost(body: string, rest: string)
    ensures Received(OnWire(Message([Header("..X", "v")], body)) + rest)
         == Some((Message([Header(".X", "v")], Normalised(body)), rest))
  {
    var h := Header("..X", "v");
    var article := Message([h], body);
    assert Clean(h) && AllClean([h]);
    hide OnWire, Received, Normalised;
    ReceivedAt(article, rest);
    assert |Lower(".X")| == 2 && |Lower("Message-ID")| == 10;
    assert Unstuffed("..X") == ".X" && SkipBlanks("v") == "v";
    assert Rewrite(Header(".X", "v")) == Header(".X", "v");
    var got := Received(OnWire(article) + rest).value.0.headers;
    assert got == [Header(".X", "v")];
  }
}
