/** Multi-line blocks on the wire (sections 3.1.1 and 3.6 of RFC 3977): articles
    are written header by header and line by line with dot-stuffing, and read
    back up to the terminating line. */
module Wire {
  import opened Text

  datatype Header = Header(name: string, value: string)
  datatype Message = Message(headers: seq<Header>, body: string)

  /** The write side of a connection. */
  class Output {
    var sent: string

    constructor ()
      ensures sent == ""
    {
      sent := "";
    }

    method WriteAll(text: string)
      modifies this
      ensures sent == old(sent) + text
    {
      sent := sent + text;
    }
  }

  // ---- Lines ----

  /** The first line with its line feed, or all of `s` when it has none. */
  function RawLine(s: string): (line: string)
    ensures line <= s && (s != "" ==> line != "")
  {
    var i := IndexOf(s, '\n');
    if i == |s| then s else s[..i + 1]
  }

  function AfterLine(s: string): (rest: string)
    ensures RawLine(s) + rest == s
  {
    s[|RawLine(s)|..]
  }

  /** Drops one LF, and the CR before it. */
  function StripEol(raw: string): string {
    if raw != "" && raw[|raw| - 1] == '\n' then
      var cut := raw[..|raw| - 1];
      if cut != "" && cut[|cut| - 1] == '\r' then cut[..|cut| - 1] else cut
    else raw
  }

  /** The lines of a text: separated by LF or CRLF, the last one possibly unended. */
  function Lines(s: string): (lines: seq<string>)
    ensures forall l :: l in lines ==> '\n' !in l
    decreases |s|
  {
    if s == "" then []
    else
      var raw := RawLine(s);
      var i := IndexOf(s, '\n');
      assert '\n' !in s[..i];
      assert StripEol(raw) <= s[..i];
      [StripEol(raw)] + Lines(AfterLine(s))
  }

  /** Every line ended by CRLF. */
  function Ended(lines: seq<string>): string {
    if lines == [] then "" else lines[0] + "\r\n" + Ended(lines[1..])
  }

  function Normalised(body: string): string { Ended(Lines(body)) }

  function Stuffed(line: string): string {
    if line != "" && line[0] == '.' then "." + line else line
  }

  function StuffedEnded(lines: seq<string>): string {
    if lines == [] then "" else Stuffed(lines[0]) + "\r\n" + StuffedEnded(lines[1..])
  }

  function HeaderLine(h: Header): string { h.name + ": " + h.value + "\r\n" }

  function HeaderBlock(headers: seq<Header>): string {
    if headers == [] then "" else HeaderLine(headers[0]) + HeaderBlock(headers[1..])
  }

  /** An article as a peer sends it: headers, blank line, stuffed body, terminator. */
  function OnWire(article: Message): string {
    HeaderBlock(article.headers) + ("\r\n" + (StuffedEnded(Lines(article.body)) + ".\r\n"))
  }

  /** The headers of other names. */
  function WithoutName(headers: seq<Header>, name: string): seq<Header> {
    if headers == [] then []
    else (if EqIgnoreCase(headers[0].name, name) then [] else [headers[0]]) + WithoutName(headers[1..], name)
  }

  // ---- Writing ----

  method SendHeader(writer: Output, h: Header)
    modifies writer
    ensures writer.sent == old(writer.sent) + HeaderLine(h)
  {
    writer.WriteAll(h.name);
    writer.WriteAll(": ");
    writer.WriteAll(h.value);
    Assoc4(old(writer.sent), h.name, ": ", h.value);
    writer.WriteAll("\r\n");
    Assoc(old(writer.sent), h.name + ": " + h.value, "\r\n");
  }

  method SendHeaders(writer: Output, article: Message)
    modifies writer
    ensures writer.sent == old(writer.sent) + HeaderBlock(article.headers)
  {
    var headers := article.headers;
    for i := 0 to |headers|
      invariant writer.sent + HeaderBlock(headers[i..]) == old(writer.sent) + HeaderBlock(headers)
    {
      Assoc(writer.sent, HeaderLine(headers[i]), HeaderBlock(headers[i + 1..]));
      SendHeader(writer, headers[i]);
      assert headers[i..][1..] == headers[i + 1..];
    }
  }

  method SendLine(writer: Output, line: string)
    modifies writer
    ensures writer.sent == old(writer.sent) + (Stuffed(line) + "\r\n")
  {
    if line != "" && line[0] == '.' {
      writer.WriteAll(".");
    }
    writer.WriteAll(line);
    Assoc(old(writer.sent), ".", line);
    writer.WriteAll("\r\n");
    Assoc(old(writer.sent), Stuffed(line), "\r\n");
  }

  method SendBody(writer: Output, body: string)
    modifies writer
    ensures writer.sent == old(writer.sent) + StuffedEnded(Lines(body))
  {
    var lines := Lines(body);
    for i := 0 to |lines|
      invariant writer.sent + StuffedEnded(lines[i..]) == old(writer.sent) + StuffedEnded(lines)
    {
      Assoc(writer.sent, Stuffed(lines[i]) + "\r\n", StuffedEnded(lines[i + 1..]));
      SendLine(writer, lines[i]);
      assert lines[i..][1..] == lines[i + 1..];
    }
  }

  method SendArticleContent(writer: Output, article: Message)
    modifies writer
    ensures writer.sent == old(writer.sent) + OnWire(article)
  {
    ghost var before, headers := writer.sent, HeaderBlock(article.headers);
    ghost var body := StuffedEnded(Lines(article.body));
    SendHeaders(writer, article);
    writer.WriteAll("\r\n");
    Assoc(before, headers, "\r\n");
    SendBody(writer, article.body);
    Assoc(before, headers + "\r\n", body);
    writer.WriteAll(".\r\n");
    Assoc(before, headers + "\r\n" + body, ".\r\n");
    Assoc(headers + "\r\n", body, ".\r\n");
    Assoc(headers, "\r\n", body + ".\r\n");
  }

  // ---- Reading ----

  /** The read side of a connection: what has not been read yet. */
  class LineReader {
    var pending: string

    constructor (input: string)
      ensures pending == input
    {
      pending := input;
    }

    /** Reads up to and including the next line feed; at the end of input, nothing. */
    method ReadLine() returns (line: string)
      modifies this
      ensures line == RawLine(old(pending)) && pending == AfterLine(old(pending))
    {
      line := RawLine(pending);
      pending := AfterLine(pending);
    }
  }

  predicate IsTerminator(line: string) { line == ".\r\n" || line == ".\n" }

  function Unstuffed(line: string): string {
    if |line| >= 2 && line[0] == '.' && line[1] == '.' then line[1..] else line
  }

  /** Some line of the input ends the block. */
  predicate HasTerminator(s: string)
    decreases |s|
  {
    s != "" && (IsTerminator(RawLine(s)) || HasTerminator(AfterLine(s)))
  }

  /** What is read up to the terminator, and what is left behind it. */
  function Block(s: string): (r: (string, string))
    requires HasTerminator(s)
    decreases |s|
  {
    if IsTerminator(RawLine(s)) then ("", AfterLine(s))
    else
      var (msg, rest) := Block(AfterLine(s));
      (Unstuffed(RawLine(s)) + msg, rest)
  }

  method ReadMessage(reader: LineReader) returns (msg: string)
    requires HasTerminator(reader.pending)
    modifies reader
    ensures (msg, reader.pending) == Block(old(reader.pending))
  {
    msg := "";
    ghost var (text, rest) := Block(reader.pending);
    while true
      invariant HasTerminator(reader.pending)
      invariant text == msg + Block(reader.pending).0 && rest == Block(reader.pending).1
      decreases |reader.pending|
    {
      ghost var pending, sofar := reader.pending, msg;
      var line := reader.ReadLine();
      if line == ".\r\n" || line == ".\n" {
        assert Block(pending) == ("", reader.pending) && msg + "" == msg;
        break;
      }
      if |line| >= 2 && line[0] == '.' && line[1] == '.' {
        msg := msg + line[1..];
      } else {
        msg := msg + line;
      }
      Assoc(sofar, Unstuffed(line), Block(reader.pending).0);
    }
  }

  /** The reading loop as a machine, one line a step; at the end of input it spins. */
  datatype Reading = Busy(msg: string, pending: string) | Finished(msg: string, pending: string)

  function ReadStep(r: Reading): Reading {
    if r.Finished? then r
    else if IsTerminator(RawLine(r.pending)) then Finished(r.msg, AfterLine(r.pending))
    else Busy(r.msg + Unstuffed(RawLine(r.pending)), AfterLine(r.pending))
  }

  function ReadSteps(r: Reading, n: nat): Reading
    decreases n
  {
    if n == 0 then r else ReadSteps(ReadStep(r), n - 1)
  }

  lemma {:induction false} ReadHalts(r: Reading) returns (n: nat)
    requires r.Busy? && HasTerminator(r.pending)
    ensures ReadSteps(r, n) == Finished(r.msg + Block(r.pending).0, Block(r.pending).1)
    decreases |r.pending|
  {
    hide IsTerminator, Unstuffed, RawLine, AfterLine;
    var next := ReadStep(r);
    if IsTerminator(RawLine(r.pending)) {
      n := 1;
      assert ReadSteps(r, 1) == ReadSteps(next, 0);
      assert r.msg + "" == r.msg;
    } else {
      var k := ReadHalts(next);
      n := k + 1;
      Assoc(r.msg, Unstuffed(RawLine(r.pending)), Block(next.pending).0);
    }
  }

  lemma {:induction false} ReadSpins(r: Reading, n: nat)
    requires r.Busy? && !HasTerminator(r.pending)
    ensures ReadSteps(r, n).Busy?
    decreases n
  {
    if n > 0 { ReadSpins(ReadStep(r), n - 1); }
  }

  /** Reading comes to an end exactly on the inputs that hold a terminator line. */
  lemma ReadHaltsExactly(input: string)
    ensures (exists n: nat :: ReadSteps(Busy("", input), n).Finished?) <==> HasTerminator(input)
  {
    var start := Busy("", input);
    if HasTerminator(input) {
      var n := ReadHalts(start);
      assert ReadSteps(start, n).Finished?;
    } else {
      forall n: nat ensures ReadSteps(start, n).Busy? { ReadSpins(start, n); }
    }
  }

  /** An input that stops short of the terminator, and the empty one, are read forever. */
  lemma ReadsForever(n: nat)
    ensures ReadSteps(Busy("", "a line\r\n"), n).Busy? && ReadSteps(Busy("", ""), n).Busy?
  {
    var line := "a line\r\n";
    FirstCrlfLine("a line", "");
    assert "a line" + "\r\n" + "" == line && line[0] == 'a';
    hide RawLine, AfterLine, ReadSteps;
    assert !HasTerminator("") && !HasTerminator(line);
    hide HasTerminator;
    ReadSpins(Busy("", line), n);
    ReadSpins(Busy("", ""), n);
  }

  // ---- Framing ----

  lemma FirstLine(line: string, rest: string)
    requires '\n' !in line
    ensures RawLine(line + "\n" + rest) == line + "\n" && AfterLine(line + "\n" + rest) == rest
  {
    var s := line + "\n" + rest;
    assert s[..|line|] == line;
    IndexOfUnique(s, '\n', |line|);
  }

  lemma FirstCrlfLine(line: string, rest: string)
    requires '\n' !in line
    ensures RawLine(line + "\r\n" + rest) == line + "\r\n" && AfterLine(line + "\r\n" + rest) == rest
  {
    FirstLine(line + "\r", rest);
    assert line + "\r" + "\n" == line + "\r\n";
    assert (line + "\r" + "\n") + rest == line + "\r\n" + rest;
  }

  lemma {:induction false} StuffedBlock(lines: seq<string>, rest: string)
    requires forall l :: l in lines ==> '\n' !in l
    ensures var s := StuffedEnded(lines) + (".\r\n" + rest);
            HasTerminator(s) && Block(s) == (Ended(lines), rest)
  {
    var end := ".\r\n" + rest;
    if lines == [] {
      FirstCrlfLine(".", rest);
      assert "." + "\r\n" == ".\r\n" && StuffedEnded(lines) + end == end;
    } else {
      var line, tail := Stuffed(lines[0]), StuffedEnded(lines[1..]) + end;
      StuffedBlock(lines[1..], rest);
      Assoc(line + "\r\n", StuffedEnded(lines[1..]), end);
      FirstCrlfLine(line, tail);
      NeverTerminator(lines[0]);
    }
  }

  /** No stuffed line is taken for the terminator, and unstuffing undoes stuffing. */
  lemma NeverTerminator(line: string)
    requires '\n' !in line
    ensures !IsTerminator(Stuffed(line) + "\r\n")
    ensures Unstuffed(Stuffed(line) + "\r\n") == line + "\r\n"
  {
    var raw := Stuffed(line) + "\r\n";
    if line == "" {
      assert raw[0] == '\r';
    } else if line[0] == '.' {
      assert raw[0] == '.' && raw[1] == '.';
      assert raw[1..] == line + "\r\n";
    } else {
      assert raw[0] == line[0];
    }
  }

  /** A stuffed body in front of any further input is read back with every line
      ended by CRLF, and reading stops exactly before that input. */
  lemma Framing(body: string, rest: string)
    ensures var s := StuffedEnded(Lines(body)) + (".\r\n" + rest);
            HasTerminator(s) && Block(s) == (Normalised(body), rest)
  {
    StuffedBlock(Lines(body), rest);
  }

  lemma {:induction false} LinesOfEnded(lines: seq<string>)
    requires forall l :: l in lines ==> '\n' !in l
    ensures Lines(Ended(lines)) == lines
  {
    if lines != [] {
      var tail := Ended(lines[1..]);
      FirstCrlfLine(lines[0], tail);
      var raw := lines[0] + "\r\n";
      assert raw[..|raw| - 1] == lines[0] + "\r" && (lines[0] + "\r")[..|lines[0]|] == lines[0];
      LinesOfEnded(lines[1..]);
    }
  }

  /** Texts, each with a line end of its own. */
  function Written(texts: seq<string>, ends: seq<string>): string
    requires |texts| == |ends|
  {
    if texts == [] then "" else texts[0] + (ends[0] + Written(texts[1..], ends[1..]))
  }

  predicate IsEnd(end: string, text: string) {
    end == "\r\n" || (end == "\n" && (text == "" || text[|text| - 1] != '\r'))
  }

  lemma EndStripped(text: string, end: string)
    requires IsEnd(end, text)
    ensures StripEol(text + end) == text
  {
    var raw := text + end;
    if end == "\n" {
      assert raw[..|raw| - 1] == text;
    } else {
      assert raw[..|raw| - 1] == text + "\r" && (text + "\r")[..|text|] == text;
    }
  }

  lemma FirstWritten(text: string, end: string, rest: string)
    requires '\n' !in text && IsEnd(end, text)
    ensures Lines(text + (end + rest)) == [text] + Lines(rest)
  {
    EndStripped(text, end);
    if end == "\n" { FirstLine(text, rest); } else { FirstCrlfLine(text, rest); }
    Assoc(text, end, rest);
    hide StripEol, RawLine, AfterLine;
    assert text + (end + rest) == (text + end) + rest;
  }

  lemma LastWritten(last: string)
    requires '\n' !in last && last != ""
    ensures Lines(last) == [last]
  {
    IndexOfAbsent(last, '\n');
    assert AfterLine(last) == "" && Lines("") == [];
  }

  /** The lines of a body are its texts, whatever the line ends; a last one without is a line
      too, unless it is empty. */
  lemma {:induction false} LinesExactly(texts: seq<string>, ends: seq<string>, last: string)
    requires |texts| == |ends| && '\n' !in last && forall text :: text in texts ==> '\n' !in text
    requires forall k :: 0 <= k < |texts| ==> IsEnd(ends[k], texts[k])
    ensures Lines(Written(texts, ends) + last) == texts + if last == "" then [] else [last]
    decreases |texts|
  {
    if texts == [] {
      assert "" + last == last;
      if last != "" { LastWritten(last); }
    } else {
      var text, end, rest := texts[0], ends[0], Written(texts[1..], ends[1..]);
      LinesExactly(texts[1..], ends[1..], last);
      assert Written(texts, ends) == text + (end + rest);
      assert '\n' !in text && IsEnd(end, text);
      hide *;
      FirstWritten(text, end, rest + last);
      Assoc(text, end + rest, last);
      Assoc(end, rest, last);
      Assoc([text], texts[1..], if last == "" then [] else [last]);
      assert texts == [text] + texts[1..];
    }
  }

  /** After one hop the body no longer changes. */
  lemma NormalisedOnce(body: string)
    ensures Lines(Normalised(body)) == Lines(body)
    ensures Normalised(Normalised(body)) == Normalised(body)
  {
    LinesOfEnded(Lines(body));
  }
}
