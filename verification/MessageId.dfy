/** Message-ID quoting: the scanner of quoted strings, domain literals and
    nested comments (src/parse.rs), and the printer that should undo it. */
module MessageId {
  import opened Text

  /** What the scanner is inside of. The program keeps two flags and a depth;
      the pending escapes are its look-ahead after a backslash. */
  datatype Mode =
    | Outside | Quoted | QuotedEscape | Bracketed | BracketedEscape
    | Comment(depth: nat)

  function Next(m: Mode, c: char): Mode {
    match m
    case Outside => if c == '"' then Quoted else if c == '[' then Bracketed
                    else if c == '(' then Comment(0) else Outside
    case Quoted => if c == '"' then Outside else if c == '\\' then QuotedEscape else Quoted
    case Bracketed => if c == ']' then Outside else if c == '\\' then BracketedEscape else Bracketed
    case QuotedEscape => Quoted
    case BracketedEscape => Bracketed
    case Comment(d) => if c == '(' then Comment(d + 1)
                       else if c != ')' then m else if d == 0 then Outside else Comment(d - 1)
  }

  /** Whether the character is part of the identifier itself. */
  predicate Kept(m: Mode, c: char) {
    match m
    case Outside => c != '"' && c != '(' && !IsWhitespace(c)
    case Quoted => c != '"' && c != '\\'
    case Bracketed => c != '\\'
    case QuotedEscape => true
    case BracketedEscape => true
    case Comment(_) => false
  }

  function Run(m: Mode, s: string): Mode
    decreases s
  {
    if s == "" then m else Run(Next(m, s[0]), s[1..])
  }

  function Emit(m: Mode, s: string): string
    decreases s
  {
    if s == "" then ""
    else (if Kept(m, s[0]) then [s[0]] else "") + Emit(Next(m, s[0]), s[1..])
  }

  predicate Angled(s: string) { |s| >= 2 && s[0] == '<' && s[|s| - 1] == '>' }

  function Inner(s: string): string
    requires Angled(s)
  {
    s[1..|s| - 1]
  }

  function Wrap(inner: string): string { "<" + inner + ">" }

  lemma WrapInner(inner: string)
    ensures Angled(Wrap(inner)) && Inner(Wrap(inner)) == inner && Trim(Wrap(inner)) == Wrap(inner)
  {
    TrimIsTrimmed(Wrap(inner));
  }

  lemma InnerWrap(id: string)
    requires Angled(id)
    ensures id == Wrap(Inner(id)) && Trimmed(id) && Trim(id) == id
  {
    TrimIsTrimmed(id);
  }

  function Unescape(id: string): string {
    var t := Trim(id);
    if Angled(t) then Wrap(Emit(Outside, Inner(t))) else t
  }

  /** The scanner state behind the program's three variables. */
  ghost function ModeOf(inQuotes: bool, inBrackets: bool, depth: nat): Mode {
    if depth > 0 then Comment(depth - 1)
    else if inQuotes then Quoted else if inBrackets then Bracketed else Outside
  }

  lemma Pushed(out: string, c: char, rest: string)
    ensures (out + [c]) + rest == out + ([c] + rest)
    ensures out + ("" + rest) == out + rest
  {
    assert "" + rest == rest;
  }

  method UnescapeMessageId(id: string) returns (out: string)
    ensures out == Unescape(id)
  {
    var trimmed := Trim(id);
    if !Angled(trimmed) {
      return trimmed;
    }
    out := "<";
    var chars := trimmed[1..|trimmed| - 1];
    var inQuotes, inBrackets, commentDepth := false, false, 0;
    ghost var target := out + Emit(Outside, chars);
    while chars != ""
      invariant !(inQuotes && inBrackets) && (commentDepth > 0 ==> !inQuotes && !inBrackets)
      invariant out + Emit(ModeOf(inQuotes, inBrackets, commentDepth), chars) == target
      invariant 0 <= commentDepth
      decreases chars
    {
      ghost var mode := ModeOf(inQuotes, inBrackets, commentDepth);
      var c := chars[0];
      chars := chars[1..];
      Pushed(out, c, Emit(Next(mode, c), chars));
      if commentDepth > 0 {
        if c == '(' {
          commentDepth := commentDepth + 1;
        } else if c == ')' {
          commentDepth := commentDepth - 1;
        }
      } else if c == '"' && !inBrackets {
        inQuotes := !inQuotes;
      } else if c == '[' && !inQuotes {
        inBrackets := true;
        out := out + "[";
      } else if c == ']' && inBrackets {
        inBrackets := false;
        out := out + "]";
      } else if c == '\\' && (inQuotes || inBrackets) {
        if chars != "" {
          Pushed(out, chars[0], Emit(mode, chars[1..]));
          out := out + [chars[0]];
          chars := chars[1..];
        }
      } else if c == '(' && !inQuotes && !inBrackets {
        commentDepth := 1;
      } else if IsWhitespace(c) && !inQuotes && !inBrackets {
      } else {
        out := out + [c];
      }
    }
    assert out + "" == out;
    out := out + ">";
  }

  predicate IsAtomChar(c: char) {
    'a' <= c <= 'z' || 'A' <= c <= 'Z' || '0' <= c <= '9'
    || c == '!' || '#' <= c <= '\'' || c == '*' || c == '+' || '-' <= c <= '/' || c == '=' || c == '?'
    || '^' <= c <= '`' || '{' <= c <= '~'
  }

  /** Puts a backslash before every character of `special`. */
  function Backslashed(s: string, special: set<char>): string {
    if s == "" then ""
    else (if s[0] in special then "\\" else "") + [s[0]] + Backslashed(s[1..], special)
  }

  predicate NeedsQuote(left: string) { exists c :: c in left && !IsAtomChar(c) }

  function EscapeLeft(left: string): string {
    if NeedsQuote(left) then "\"" + Backslashed(left, {'"', '\\'}) + "\"" else left
  }

  /** A domain literal. */
  predicate Literal(right: string) {
    |right| >= 2 && right[0] == '[' && right[|right| - 1] == ']'
  }

  function EscapeRight(right: string): string {
    if Literal(right) then "[" + Backslashed(right[1..|right| - 1], {'\\', ']', '['}) + "]" else right
  }

  /** Escapes what is between the angle brackets; without an `@` it is left alone. */
  function EscapeInner(inner: string): string {
    var i := IndexOf(inner, '@');
    if i == |inner| then inner else EscapeLeft(inner[..i]) + ("@" + EscapeRight(inner[i + 1..]))
  }

  function Escape(id: string): string {
    var t := Trim(id);
    if Angled(t) then Wrap(EscapeInner(Inner(t))) else t
  }

  /** The copying loop that both halves of the identifier go through. */
  method PushEscaped(s: string, special: set<char>) returns (esc: string)
    ensures esc == Backslashed(s, special)
  {
    esc := "";
    for i := 0 to |s|
      invariant esc + Backslashed(s[i..], special) == Backslashed(s, special)
    {
      if s[i] in special {
        esc := esc + "\\";
      }
      esc := esc + [s[i]];
    }
  }

  lemma {:induction false} BackslashedNothing(s: string, special: set<char>)
    requires forall c :: c in s ==> c !in special
    ensures Backslashed(s, special) == s
  {
    if s != "" { BackslashedNothing(s[1..], special); }
  }

  /** Character by character: a backslash and the character if it is special, else the character. */
  lemma {:induction false} BackslashedExactly(a: string, c: char, b: string, special: set<char>)
    ensures Backslashed(a + [c] + b, special)
         == Backslashed(a, special) + (if c in special then ['\\', c] else [c]) + Backslashed(b, special)
    ensures Backslashed("", special) == ""
  {
    var s := a + [c] + b;
    if a == "" {
      assert s[0] == c && s[1..] == b;
      assert "\\" + [c] == ['\\', c];
    } else {
      assert s[0] == a[0] && s[1..] == a[1..] + [c] + b;
      BackslashedExactly(a[1..], c, b, special);
    }
  }

  lemma IsAtomCharExactly(c: char)
    ensures IsAtomChar(c) <==>
            'a' <= c <= 'z' || 'A' <= c <= 'Z' || '0' <= c <= '9'
            || c in {'!', '#', '$', '%', '&', '\'', '*', '+', '-', '/', '=', '?', '^', '_', '`', '{', '|', '}', '~', '.'}
  {
  }

  /** A left part is quoted exactly when a character of it needs that; only what is quoted, and a
      domain literal, gets backslashes. */
  lemma AddressEscaped(left: string, right: string)
    requires '@' !in left
    ensures Escape("<" + (left + ("@" + right)) + ">") == "<" + (EscapeLeft(left) + ("@" + EscapeRight(right))) + ">"
    ensures (forall c :: c in left ==> IsAtomChar(c)) ==> EscapeLeft(left) == left
    ensures (exists c :: c in left && !IsAtomChar(c)) ==>
              EscapeLeft(left) == "\"" + Backslashed(left, {'"', '\\'}) + "\""
  {
    AddressParts(left, right);
    WrapInner(left + ("@" + right));
    hide IsAtomChar, Backslashed, EscapeRight, EscapeInner, Trim, Inner;
  }

  lemma DomainEscaped(right: string)
    ensures forall inner | right == "[" + inner + "]" ::
              EscapeRight(right) == "[" + Backslashed(inner, {'\\', ']', '['}) + "]"
    ensures (forall inner :: right != "[" + inner + "]") ==> EscapeRight(right) == right
  {
    hide Backslashed;
    if Literal(right) {
      assert right == "[" + right[1..|right| - 1] + "]";
    }
    forall inner | right == "[" + inner + "]"
      ensures Literal(right) && right[1..|right| - 1] == inner
    {
    }
  }

  method EscapeMessageId(id: string) returns (out: string)
    ensures out == Escape(id)
  {
    var trimmed := Trim(id);
    if !Angled(trimmed) {
      return trimmed;
    }
    InnerWrap(trimmed);
    var inner := EscapeAddress(Inner(trimmed));
    out := Wrap(inner);
  }

  method EscapeAddress(inner: string) returns (out: string)
    ensures out == EscapeInner(inner)
  {
    hide EscapeLeft, EscapeRight;
    var at := IndexOf(inner, '@');
    if at == |inner| {
      return inner;
    }
    var escLeft := EscapeLocalPart(inner[..at]);
    var escRight := EscapeDomain(inner[at + 1..]);
    out := escLeft + ("@" + escRight);
  }

  method EscapeLocalPart(left: string) returns (escLeft: string)
    ensures escLeft == EscapeLeft(left)
  {
    escLeft := "";
    var needsQuote := exists c :: c in left && !IsAtomChar(c);
    if needsQuote {
      escLeft := "\"";
    } else {
      BackslashedNothing(left, {'"', '\\'});
    }
    var copied := PushEscaped(left, {'"', '\\'});
    escLeft := escLeft + copied;
    if needsQuote {
      escLeft := escLeft + "\"";
    }
  }

  method EscapeDomain(right: string) returns (escRight: string)
    ensures escRight == EscapeRight(right)
  {
    if Literal(right) {
      var body := PushEscaped(right[1..|right| - 1], {'\\', ']', '['});
      escRight := "[" + body + "]";
    } else {
      escRight := right;
    }
  }

  // ---- The scanner over concatenations ----

  lemma {:induction false} EmitConcat(m: Mode, a: string, b: string)
    ensures Run(m, a + b) == Run(Run(m, a), b)
    ensures Emit(m, a + b) == Emit(m, a) + Emit(Run(m, a), b)
    decreases a
  {
    hide Next, Kept;
    if a == "" {
      assert a + b == b;
    } else {
      assert (a + b)[1..] == a[1..] + b;
      EmitConcat(Next(m, a[0]), a[1..], b);
    }
  }

  lemma {:induction false} ScanBackslashed(m: Mode, s: string, special: set<char>)
    requires (m == Quoted && special == {'"', '\\'}) || (m == Bracketed && special == {'\\', ']', '['})
    ensures Run(m, Backslashed(s, special)) == m
    ensures Emit(m, Backslashed(s, special)) == s
  {
    if s != "" {
      ScanBackslashed(m, s[1..], special);
      var c, rest := s[0], Backslashed(s[1..], special);
      if c in special {
        var w := Backslashed(s, special);
        assert w == "\\" + [c] + rest && w[1..] == [c] + rest && w[1..][1..] == rest;
      } else {
        assert Backslashed(s, special)[1..] == rest;
      }
    }
  }

  /** A string the scanner hands through untouched: outside brackets no quote,
      opening parenthesis or white space, inside brackets no backslash. */
  predicate Verbatim(s: string, inBrackets: bool) {
    s == ""
    || if inBrackets then s[0] != '\\' && Verbatim(s[1..], s[0] != ']')
       else s[0] != '"' && s[0] != '(' && !IsWhitespace(s[0]) && Verbatim(s[1..], s[0] == '[')
  }

  lemma {:induction false} EmitShortens(m: Mode, s: string)
    ensures |Emit(m, s)| <= |s|
    ensures forall c :: c in Emit(m, s) ==> c in s
    decreases s
  {
    if s != "" { EmitShortens(Next(m, s[0]), s[1..]); }
  }

  lemma {:induction false} EmitVerbatim(m: Mode, s: string)
    requires m == Outside || m == Bracketed
    ensures Emit(m, s) == s <==> Verbatim(s, m == Bracketed)
    ensures Emit(m, s) != s ==> |Emit(m, s)| < |s|
    decreases s
  {
    if s != "" {
      var n := Next(m, s[0]);
      EmitShortens(n, s[1..]);
      if Kept(m, s[0]) {
        EmitVerbatim(n, s[1..]);
        assert s == [s[0]] + s[1..];
        assert Emit(m, s)[1..] == Emit(n, s[1..]);
      }
    }
  }

  lemma {:induction false} AtomsAreVerbatim(s: string)
    requires !NeedsQuote(s)
    ensures Run(Outside, s) == Outside && Emit(Outside, s) == s
  {
    if s != "" {
      assert IsAtomChar(s[0]) && Kept(Outside, s[0]) && Next(Outside, s[0]) == Outside;
      assert !NeedsQuote(s[1..]);
      AtomsAreVerbatim(s[1..]);
    }
  }

  lemma ScanEscapedLeft(left: string)
    ensures Run(Outside, EscapeLeft(left)) == Outside && Emit(Outside, EscapeLeft(left)) == left
  {
    if NeedsQuote(left) {
      var b := Backslashed(left, {'"', '\\'});
      ScanBackslashed(Quoted, left, {'"', '\\'});
      EmitConcat(Outside, "\"" + b, "\"");
      EmitConcat(Outside, "\"", b);
    } else {
      AtomsAreVerbatim(left);
    }
  }

  lemma ScanBrackets()
    ensures Run(Outside, "[") == Bracketed && Emit(Outside, "[") == "["
    ensures Emit(Bracketed, "]") == "]"
  {
  }

  lemma ScanLiteral(inner: string)
    ensures Emit(Outside, "[" + Backslashed(inner, {'\\', ']', '['}) + "]") == "[" + inner + "]"
  {
    ScanBrackets();
    hide Emit, Run, Backslashed;
    var b := Backslashed(inner, {'\\', ']', '['});
    ScanBackslashed(Bracketed, inner, {'\\', ']', '['});
    EmitConcat(Outside, "[" + b, "]");
    EmitConcat(Outside, "[", b);
  }

  lemma ScanEscapedRight(right: string)
    ensures Literal(right) ==> Emit(Outside, EscapeRight(right)) == right
    ensures !Literal(right) ==> (Emit(Outside, EscapeRight(right)) == right <==> Verbatim(right, false))
    ensures !Literal(right) && !Verbatim(right, false) ==> |Emit(Outside, EscapeRight(right))| < |right|
  {
    hide Emit, Verbatim, Backslashed;
    if Literal(right) {
      var inner := right[1..|right| - 1];
      ScanLiteral(inner);
      assert right == "[" + inner + "]";
    } else {
      EmitVerbatim(Outside, right);
    }
  }

  // ---- Round trip ----

  /** The identifiers that survive printing and scanning, read off the identifier. */
  predicate Printable(id: string) {
    Trimmed(id) && (Angled(id) ==> PrintableInner(Inner(id)))
  }

  predicate PrintableInner(inner: string) {
    var i := IndexOf(inner, '@');
    if i == |inner| then Verbatim(inner, false)
    else Literal(inner[i + 1..]) || Verbatim(inner[i + 1..], false)
  }

  /** What the scanner makes of an escaped address. */
  lemma ScanAddress(left: string, right: string)
    ensures Emit(Outside, EscapeLeft(left) + ("@" + EscapeRight(right)))
         == left + ("@" + Emit(Outside, EscapeRight(right)))
  {
    var r := EscapeRight(right);
    ScanEscapedLeft(left);
    EmitConcat(Outside, EscapeLeft(left), "@" + r);
    EmitConcat(Outside, "@", r);
  }

  lemma ScanEscapedInner(inner: string)
    ensures Emit(Outside, EscapeInner(inner)) == inner <==> PrintableInner(inner)
    ensures !PrintableInner(inner) ==> EscapeInner(Emit(Outside, EscapeInner(inner))) != EscapeInner(inner)
  {
    var i := IndexOf(inner, '@');
    if i == |inner| {
      ScanUnsplit(inner);
    } else {
      var left, right := inner[..i], inner[i + 1..];
      assert inner == left + ("@" + right);
      ScanEscapedAddress(left, right);
    }
  }

  lemma ScanUnsplit(inner: string)
    requires IndexOf(inner, '@') == |inner|
    ensures Emit(Outside, inner) == inner <==> Verbatim(inner, false)
    ensures EscapeInner(Emit(Outside, inner)) == Emit(Outside, inner)
  {
    EmitVerbatim(Outside, inner);
    EmitShortens(Outside, inner);
    assert inner[..|inner|] == inner;
  }

  lemma ScanEscapedAddress(left: string, right: string)
    requires '@' !in left
    ensures var esc := EscapeLeft(left) + ("@" + EscapeRight(right));
            (Emit(Outside, esc) == left + ("@" + right) <==> Literal(right) || Verbatim(right, false))
            && (!Literal(right) && !Verbatim(right, false) ==> EscapeInner(Emit(Outside, esc)) != esc)
  {
    hide EscapeLeft, EscapeInner, Emit, Verbatim;
    var e := Emit(Outside, EscapeRight(right));
    ScanAddress(left, right);
    ScanEscapedRight(right);
    SameTail(left, "@" + e, "@" + right);
    SameTail("@", e, right);
    if !Literal(right) && !Verbatim(right, false) {
      EscapedAgain(left, right, e);
    }
  }

  lemma SameTail(a: string, b: string, c: string)
    ensures a + b == a + c <==> b == c
  {
    assert b == (a + b)[|a|..] && c == (a + c)[|a|..];
  }

  /** A right part that loses characters does not get them back by printing again. */
  lemma EscapedAgain(left: string, right: string, e: string)
    requires '@' !in left && !Literal(right) && |e| < |right|
    ensures EscapeInner(left + ("@" + e)) != EscapeLeft(left) + ("@" + EscapeRight(right))
  {
    var again := left + ("@" + e);
    assert again[..|left|] == left && again[|left| + 1..] == e;
    IndexOfUnique(again, '@', |left|);
    assert EscapeRight(e) != right;
    SameTail(EscapeLeft(left), "@" + EscapeRight(e), "@" + right);
    SameTail("@", EscapeRight(e), right);
  }

  /** Printing then scanning gives the identifier back exactly on the printable ones. */
  lemma RoundTrip(id: string)
    ensures Unescape(Escape(id)) == id <==> Printable(id)
  {
    TrimIsTrimmed(id);
    var t := Trim(id);
    if Angled(t) {
      WrapInner(EscapeInner(Inner(t)));
      WrapInner(Emit(Outside, EscapeInner(Inner(t))));
      InnerWrap(t);
      ScanEscapedInner(Inner(t));
      if Angled(id) { InnerWrap(id); }
    } else {
      TrimIsTrimmed(t);
    }
  }

  lemma EscapeInjective(a: string, b: string)
    requires Printable(a) && Printable(b) && Escape(a) == Escape(b)
    ensures a == b
  {
    RoundTrip(a);
    RoundTrip(b);
  }

  /** The form a Message-ID has after one more hop: scanned, then printed. */
  function Rewritten(id: string): string { Escape(Unescape(id)) }

  /** An identifier keeps its stored form from hop to hop exactly when, trimmed, it is printable. */
  lemma StoredFormStable(id: string)
    ensures Rewritten(Escape(id)) == Escape(id) <==> Printable(Trim(id))
  {
    TrimIsTrimmed(id);
    var t := Trim(id);
    if Angled(t) {
      var e := EscapeInner(Inner(t));
      var u := Emit(Outside, e);
      WrapInner(e);
      WrapInner(u);
      WrapInner(EscapeInner(u));
      ScanEscapedInner(Inner(t));
    } else {
      TrimIsTrimmed(t);
    }
  }

  lemma AddressParts(left: string, right: string)
    requires '@' !in left
    ensures EscapeInner(left + ("@" + right)) == EscapeLeft(left) + ("@" + EscapeRight(right))
    ensures PrintableInner(left + ("@" + right)) <==> Literal(right) || Verbatim(right, false)
  {
    var inner := left + ("@" + right);
    assert inner[..|left|] == left && inner[|left| + 1..] == right;
    IndexOfUnique(inner, '@', |left|);
  }

  /** An address after one hop. */
  lemma AddressRewritten(left: string, right: string)
    requires '@' !in left
    ensures Unescape(Escape(Wrap(left + ("@" + right)))) == Wrap(left + ("@" + Emit(Outside, EscapeRight(right))))
  {
    hide EscapeLeft, EscapeRight, EscapeInner, Emit, Wrap, Inner, Angled;
    AddressParts(left, right);
    WrapInner(left + ("@" + right));
    WrapInner(EscapeInner(left + ("@" + right)));
    ScanAddress(left, right);
  }

  /** A blank in an unbracketed right part is lost at the first hop. */
  lemma BlankInDomainIsLost()
    ensures Unescape(Escape(Wrap("a" + ("@" + "b c")))) == Wrap("a" + ("@" + "bc"))
    ensures !PrintableInner("a" + ("@" + "b c"))
  {
    hide Wrap, Escape, Unescape;
    AddressParts("a", "b c");
    AddressRewritten("a", "b c");
    ScanBlank();
    EmitVerbatim(Outside, "b c");
  }

  lemma ScanBlank()
    ensures Emit(Outside, "b c") == "bc" && EscapeRight("b c") == "b c"
  {
    EmitConcat(Outside, "b", " c");
    EmitConcat(Outside, " ", "c");
    assert "b" + " c" == "b c" && " " + "c" == " c";
  }

  // ---- Comments ----

  /** The nesting level after `s`, or None once a parenthesis closes what `s` did not open. */
  function Level(s: string, level: nat): Option<nat> {
    if s == "" then Some(level)
    else if s[0] == '(' then Level(s[1..], level + 1)
    else if s[0] == ')' then if level == 0 then None else Level(s[1..], level - 1)
    else Level(s[1..], level)
  }

  predicate Balanced(s: string) { Level(s, 0) == Some(0) }

  lemma {:induction false} ScanComment(s: string, level: nat)
    requires Level(s, level).Some?
    ensures Run(Comment(level), s) == Comment(Level(s, level).value)
    ensures Emit(Comment(level), s) == ""
  {
    if s != "" {
      if s[0] == '(' {
        ScanComment(s[1..], level + 1);
      } else if s[0] == ')' {
        ScanComment(s[1..], level - 1);
      } else {
        ScanComment(s[1..], level);
      }
    }
  }

  /** A comment inserted where the scanner is outside everything changes nothing. */
  lemma CommentDeletion(p: string, comment: string, q: string)
    requires Run(Outside, p) == Outside && Balanced(comment)
    ensures Unescape(Wrap(p + ("(" + comment + ")") + q)) == Unescape(Wrap(p + q))
  {
    var c := "(" + comment + ")";
    ScanWholeComment(comment);
    EmitSkips(p, c, q);
    WrapInner(p + c + q);
    WrapInner(p + q);
  }

  lemma EmitSkips(p: string, c: string, q: string)
    requires Run(Outside, p) == Outside == Run(Outside, c) && Emit(Outside, c) == ""
    ensures Emit(Outside, p + c + q) == Emit(Outside, p + q)
  {
    hide Emit, Run;
    EmitConcat(Outside, p + c, q);
    EmitConcat(Outside, p, c);
    EmitConcat(Outside, p, q);
    assert Emit(Outside, p) + "" == Emit(Outside, p);
  }

  lemma ScanWholeComment(comment: string)
    requires Balanced(comment)
    ensures Run(Outside, "(" + comment + ")") == Outside && Emit(Outside, "(" + comment + ")") == ""
  {
    ScanComment(comment, 0);
    EmitConcat(Outside, "(" + comment, ")");
    EmitConcat(Outside, "(", comment);
  }
}
