/** What a retrieval is charged for and what it puts on the wire (src/handlers/utils.rs). */
module Charge {
  import opened Text
  import opened Wire

  datatype Operation = Full | Headers | Body | Stat

  const DOT_CRLF: string := ".\r\n"

  function HeaderSize(headers: seq<Header>): nat {
    if headers == [] then 0
    else Bytes(headers[0].name) + 2 + Bytes(headers[0].value) + 2 + HeaderSize(headers[1..])
  }

  /** The size checked against, and recorded in, the user's bandwidth. */
  function Charged(op: Operation, article: Message): nat {
    match op
    case Full => HeaderSize(article.headers) + 2 + Bytes(article.body) + 5
    case Headers => HeaderSize(article.headers) + 3
    case Body => Bytes(article.body) + 5
    case Stat => 0
  }

  /** What follows the status line. */
  function Payload(op: Operation, article: Message): string {
    match op
    case Full => HeaderBlock(article.headers) + "\r\n" + StuffedEnded(Lines(article.body)) + DOT_CRLF
    case Headers => HeaderBlock(article.headers) + DOT_CRLF
    case Body => StuffedEnded(Lines(article.body)) + DOT_CRLF
    case Stat => ""
  }

  method ArticleSize(op: Operation, article: Message) returns (size: nat)
    ensures size == Charged(op, article)
    ensures op == Stat ==> size == 0
  {
    var headerSize := 0;
    var headers := article.headers;
    for i := 0 to |headers|
      invariant headerSize + HeaderSize(headers[i..]) == HeaderSize(headers)
    {
      headerSize := headerSize + Bytes(headers[i].name) + 2 + Bytes(headers[i].value) + 2;
    }
    match op {
      case Full => size := headerSize + 2 + Bytes(article.body) + 5;
      case Headers => size := headerSize + 3;
      case Body => size := Bytes(article.body) + 5;
      case Stat => size := 0;
    }
  }

  method WriteArticle(writer: Output, op: Operation, statusLine: string, article: Message)
    modifies writer
    ensures writer.sent == old(writer.sent) + statusLine + Payload(op, article)
    ensures op == Stat ==> writer.sent == old(writer.sent) + statusLine
  {
    writer.WriteAll(statusLine);
    ghost var start, block, body := writer.sent, HeaderBlock(article.headers), StuffedEnded(Lines(article.body));
    match op {
      case Full =>
        SendHeaders(writer, article);
        writer.WriteAll("\r\n");
        Assoc(start, block, "\r\n");
        SendBody(writer, article.body);
        Assoc(start, block + "\r\n", body);
        writer.WriteAll(DOT_CRLF);
        Assoc(start, block + "\r\n" + body, DOT_CRLF);
      case Headers =>
        SendHeaders(writer, article);
        writer.WriteAll(DOT_CRLF);
        Assoc(start, block, DOT_CRLF);
      case Body =>
        SendBody(writer, article.body);
        writer.WriteAll(DOT_CRLF);
        Assoc(start, body, DOT_CRLF);
      case Stat =>
        assert start + "" == start;
    }
  }

  // ---- Counting ----

  lemma BytesOfCrlf()
    ensures Bytes("\r\n") == 2 && Bytes(": ") == 2 && Bytes(".") == 1 && Bytes(DOT_CRLF) == 3
  {
    BytesConcat("\r", "\n");
    BytesConcat(":", " ");
    BytesConcat(".", "\r\n");
    assert "\r" + "\n" == "\r\n" && ":" + " " == ": " && "." + "\r\n" == DOT_CRLF;
    assert Bytes("\r") == 1 && Bytes("\n") == 1 && Bytes(":") == 1 && Bytes(" ") == 1;
  }

  lemma {:induction false} BytesOfHeaders(headers: seq<Header>)
    ensures Bytes(HeaderBlock(headers)) == HeaderSize(headers)
  {
    if headers != [] {
      var h := headers[0];
      BytesOfCrlf();
      BytesOfHeaders(headers[1..]);
      BytesConcat(h.name, ": ");
      BytesConcat(h.name + ": ", h.value);
      BytesConcat(h.name + ": " + h.value, "\r\n");
      BytesConcat(HeaderLine(h), HeaderBlock(headers[1..]));
    }
  }

  function DotLines(lines: seq<string>): nat {
    if lines == [] then 0
    else (if lines[0] != "" && lines[0][0] == '.' then 1 else 0) + DotLines(lines[1..])
  }

  /** Line feeds without a carriage return before them. */
  function BareFeeds(s: string): nat {
    if s == "" then 0
    else
      BareFeeds(s[..|s| - 1])
      + if s[|s| - 1] == '\n' && (|s| == 1 || s[|s| - 2] != '\r') then 1 else 0
  }

  /** The line end that is added to a last line without one. */
  function Completion(body: string): nat {
    if body != "" && body[|body| - 1] != '\n' then 2 else 0
  }

  lemma {:induction false} NoFeeds(s: string)
    requires '\n' !in s
    ensures BareFeeds(s) == 0
  {
    if s != "" { NoFeeds(s[..|s| - 1]); }
  }

  lemma {:induction false} FeedsConcat(a: string, b: string)
    requires a == "" || a[|a| - 1] == '\n'
    ensures BareFeeds(a + b) == BareFeeds(a) + BareFeeds(b)
  {
    if b == "" {
      assert a + b == a;
    } else {
      FeedsConcat(a, b[..|b| - 1]);
      assert (a + b)[..|a + b| - 1] == a + b[..|b| - 1];
    }
  }

  lemma StuffedBytes(line: string)
    ensures Bytes(Stuffed(line) + "\r\n") == Bytes(line) + DotLines([line]) + 2
  {
    BytesOfCrlf();
    BytesConcat(".", line);
    BytesConcat(Stuffed(line), "\r\n");
  }

  /** One line: what its stuffed, ended form has more than its raw form. */
  lemma LineBytes(s: string)
    requires s != ""
    ensures var raw := RawLine(s);
            Bytes(Stuffed(StripEol(raw)) + "\r\n")
            == Bytes(raw) + DotLines([StripEol(raw)]) + BareFeeds(raw) + Completion(raw)
  {
    StuffedBytes(StripEol(RawLine(s)));
    hide Stuffed, DotLines;
    var raw := RawLine(s);
    var line := StripEol(raw);
    var i := IndexOf(s, '\n');
    assert Bytes("\n") == 1 && Bytes("\r") == 1;
    if i == |s| {
      assert s[..i] == s;
      NoFeeds(raw);
    } else {
      NoFeeds(s[..i]);
      assert raw == s[..i] + "\n" && raw[..|raw| - 1] == s[..i];
      BytesConcat(s[..i], "\n");
      if i > 0 && s[i - 1] == '\r' {
        assert s[..i] == line + "\r";
        BytesConcat(line, "\r");
      }
    }
  }

  lemma FeedsOfRest(body: string)
    requires body != ""
    ensures var raw, rest := RawLine(body), AfterLine(body);
            BareFeeds(body) + Completion(body)
            == BareFeeds(raw) + Completion(raw) + (BareFeeds(rest) + Completion(rest))
  {
    var raw, rest := RawLine(body), AfterLine(body);
    if raw[|raw| - 1] == '\n' {
      FeedsConcat(raw, rest);
      assert rest != "" ==> body[|body| - 1] == rest[|rest| - 1];
    } else {
      assert rest == "" && raw == body;
    }
  }

  lemma {:induction false} BodyBytes(body: string)
    ensures Bytes(StuffedEnded(Lines(body)))
         == Bytes(body) + DotLines(Lines(body)) + (BareFeeds(body) + Completion(body))
    decreases |body|
  {
    if body != "" {
      var raw, rest := RawLine(body), AfterLine(body);
      var line := StripEol(raw);
      LineBytes(body);
      BodyBytes(rest);
      FeedsOfRest(body);
      BytesConcat(raw, rest);
      StuffedCons(line, Lines(rest));
      assert Lines(body) == [line] + Lines(rest);
    }
  }

  lemma StuffedCons(line: string, lines: seq<string>)
    ensures Bytes(StuffedEnded([line] + lines)) == Bytes(Stuffed(line) + "\r\n") + Bytes(StuffedEnded(lines))
    ensures DotLines([line] + lines) == DotLines([line]) + DotLines(lines)
  {
    assert ([line] + lines)[1..] == lines;
    BytesConcat(Stuffed(line) + "\r\n", StuffedEnded(lines));
  }

  /** HEAD is charged exactly what it writes. */
  lemma HeadChargeExact(article: Message)
    ensures Charged(Headers, article) == Bytes(Payload(Headers, article))
  {
    BytesOfCrlf();
    BytesOfHeaders(article.headers);
    BytesConcat(HeaderBlock(article.headers), DOT_CRLF);
  }

  /** ARTICLE and BODY write two bytes less than the charge, plus one for every
      stuffed line and bare line feed, plus two for a last line without its end. */
  lemma BodyChargeGap(op: Operation, article: Message)
    requires op == Full || op == Body
    ensures var b := article.body;
            Bytes(Payload(op, article)) + 2
            == Charged(op, article) + DotLines(Lines(b)) + BareFeeds(b) + Completion(b)
  {
    var block, body := HeaderBlock(article.headers), StuffedEnded(Lines(article.body));
    BytesOfCrlf();
    BodyBytes(article.body);
    BytesOfHeaders(article.headers);
    BytesConcat(block, "\r\n");
    BytesConcat(block + "\r\n", body);
    BytesConcat(block + "\r\n" + body, DOT_CRLF);
    BytesConcat(body, DOT_CRLF);
  }
}
