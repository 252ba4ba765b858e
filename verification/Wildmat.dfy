/** Wildmat patterns (section 4 of RFC 3977) are compiled to regular-expression
    text (src/wildmat.rs). The text is read back here with the grammar of the
    fragment that the compiler emits. */
module Wildmat {
  import opened Text

  // ---- The compiler ----

  /** The characters that the regex library's `escape` puts a backslash before. */
  predicate IsMeta(c: char) {
    c == '#' || c == '$' || c == '&' || '(' <= c <= '+' || c == '-' || c == '.' || c == '?'
    || '[' <= c <= '^' || '{' <= c <= '~'
  }

  function Escaped(c: char): string { if IsMeta(c) then "\\" + [c] else [c] }

  /** A class body up to its closing bracket, and what follows the bracket. */
  function ClassBody(s: string): (r: (string, string))
    ensures |r.1| <= |s|
    decreases |s|
  {
    if s == "" then ("", "")
    else if s[0] == ']' then ("", s[1..])
    else if s[0] == '\\' then
      if |s| == 1 then ("\\", "")
      else var (body, rest) := ClassBody(s[2..]); (Escaped(s[1]) + body, rest)
    else var (body, rest) := ClassBody(s[1..]); ([s[0]] + body, rest)
  }

  predicate Negates(s: string) { s != "" && (s[0] == '!' || s[0] == '^') }

  function Class(s: string): (r: Option<(string, string)>)
    ensures r.Some? ==> |r.value.1| <= |s|
  {
    if ']' !in s then None
    else if Negates(s) then var (body, rest) := ClassBody(s[1..]); Some(("^" + body, rest))
    else Some(ClassBody(s))
  }

  function Body(p: string): string
    decreases |p|
  {
    if p == "" then ""
    else if p[0] == '*' then ".*" + Body(p[1..])
    else if p[0] == '?' then "." + Body(p[1..])
    else if p[0] == '[' then
      match Class(p[1..])
      case Some((class_, rest)) => "[" + class_ + "]" + Body(rest)
      case None => "\\[" + Body(p[1..])
    else if p[0] == '\\' then
      if |p| == 1 then "\\" else Escaped(p[1]) + Body(p[2..])
    else Escaped(p[0]) + Body(p[1..])
  }

  function RegexText(p: string): string { "^" + (Body(p) + "$") }

  method ParseClass(chars: string) returns (r: Option<string>, rest: string)
    ensures Class(chars).None? ==> r == None && rest == chars
    ensures Class(chars).Some? ==> r.Some? && (r.value, rest) == Class(chars).value
  {
    var found := false;
    for i := 0 to |chars|
      invariant !found && ']' !in chars[..i]
    {
      if chars[i] == ']' {
        found := true;
        assert ']' in chars;
        break;
      }
    }
    if !found {
      assert chars[..|chars|] == chars;
      return None, chars;
    }
    var body := "";
    rest := chars;
    if rest != "" && (rest[0] == '!' || rest[0] == '^') {
      body := body + "^";
      rest := rest[1..];
    }
    ghost var (text, after) := ClassBody(rest);
    assert ']' in chars;
    assert "" + text == text;
    assert Negates(chars) ==> rest == chars[1..] && body == "^";
    assert Class(chars).value.0 == body + text;
    assert Class(chars).value.1 == after;
    text := body + text;
    while rest != ""
      invariant body + ClassBody(rest).0 == text && ClassBody(rest).1 == after
      decreases |rest|
    {
      var ch := rest[0];
      ghost var at := rest;
      rest := rest[1..];
      if ch == ']' {
        assert body + "" == body;
        return Some(body), rest;
      }
      if ch == '\\' {
        if rest != "" {
          assert at[2..] == rest[1..];
          Assoc(body, Escaped(rest[0]), ClassBody(rest[1..]).0);
          body := body + Escaped(rest[0]);
          rest := rest[1..];
        } else {
          assert ClassBody(at) == ("\\", "");
          body := body + "\\";
          assert body + "" == body;
        }
      } else {
        Assoc(body, [ch], ClassBody(rest).0);
        body := body + [ch];
      }
    }
    assert body + "" == body;
    return Some(body), rest;
  }

  method PatternToRegex(pattern: string) returns (regex: string)
    ensures regex == RegexText(pattern)
  {
    regex := "^";
    var chars := pattern;
    while chars != ""
      invariant regex + Body(chars) == "^" + Body(pattern)
      decreases |chars|
    {
      ghost var sofar, at := regex, chars;
      var c := chars[0];
      chars := chars[1..];
      ghost var piece := "";
      match c {
        case '*' =>
          regex := regex + ".*";
          piece := ".*";
        case '?' =>
          regex := regex + ".";
          piece := ".";
        case '[' =>
          var class_, rest := ParseClass(chars);
          if class_.Some? {
            regex := regex + "[";
            regex := regex + class_.value;
            regex := regex + "]";
            chars := rest;
            piece := "[" + class_.value + "]";
            Assoc(sofar, "[", class_.value);
            Assoc(sofar, "[" + class_.value, "]");
          } else {
            regex := regex + "\\[";
            piece := "\\[";
          }
        case '\\' =>
          if chars != "" {
            assert at[2..] == chars[1..];
            regex := regex + Escaped(chars[0]);
            piece := Escaped(chars[0]);
            chars := chars[1..];
          } else {
            regex := regex + "\\";
            piece := "\\";
          }
        case _ =>
          regex := regex + Escaped(c);
          piece := Escaped(c);
      }
      assert regex == sofar + piece && Body(at) == piece + Body(chars);
      Assoc(sofar, piece, Body(chars));
    }
    regex := regex + "$";
    assert "^" + Body(pattern) + "" == "^" + Body(pattern);
    Assoc("^", Body(pattern), "$");
  }

  // ---- The regex fragment ----

  datatype Item = One(c: char) | Range(lo: char, hi: char)
  datatype Atom = Lit(c: char) | AnyChar | AnyRun | OneOf(negated: bool, items: seq<Item>)

  /** Characters that stand for themselves in a class. */
  predicate ClassPlain(c: char) { !('[' <= c <= '^') && c != '-' && c != '&' && c != '~' }

  /** Class items up to the closing bracket; no set operations, no nesting. */
  function ReadItems(t: string): (r: Option<(seq<Item>, string)>)
    ensures r.Some? ==> |r.value.1| < |t|
    decreases |t|
  {
    if t == "" then None
    else if t[0] == ']' then Some(([], t[1..]))
    else if t[0] == '\\' then
      if |t| > 1 && IsMeta(t[1]) then Prepend(One(t[1]), ReadItems(t[2..])) else None
    else if !ClassPlain(t[0]) then None
    else if |t| > 2 && t[1] == '-' then
      if ClassPlain(t[2]) && t[0] <= t[2] then Prepend(Range(t[0], t[2]), ReadItems(t[3..])) else None
    else Prepend(One(t[0]), ReadItems(t[1..]))
  }

  function Prepend<T, R>(x: T, r: Option<(seq<T>, R)>): Option<(seq<T>, R)> {
    if r.None? then None else Some(([x] + r.value.0, r.value.1))
  }

  /** A non-empty class behind its opening bracket. */
  function ReadClass(t: string): (r: Option<(Atom, string)>)
    ensures r.Some? ==> |r.value.1| < |t|
  {
    var negated := t != "" && t[0] == '^';
    match ReadItems(if negated then t[1..] else t)
    case None => None
    case Some((items, rest)) => if items == [] then None else Some((OneOf(negated, items), rest))
  }

  /** The atoms of an expression, and whether `$` ends it. */
  function ReadAtoms(t: string): Option<(seq<Atom>, bool)>
    decreases |t|
  {
    if t == "" then Some(([], false))
    else if t == "$" then Some(([], true))
    else if t[0] == '.' then
      if |t| > 1 && t[1] == '*' then Prepend(AnyRun, ReadAtoms(t[2..]))
      else Prepend(AnyChar, ReadAtoms(t[1..]))
    else if t[0] == '\\' then
      if |t| > 1 && IsMeta(t[1]) then Prepend(Lit(t[1]), ReadAtoms(t[2..])) else None
    else if t[0] == '[' then
      match ReadClass(t[1..])
      case None => None
      case Some((atom, rest)) => Prepend(atom, ReadAtoms(rest))
    else if IsMeta(t[0]) then None
    else Prepend(Lit(t[0]), ReadAtoms(t[1..]))
  }

  function ReadRegex(t: string): Option<(seq<Atom>, bool)> {
    if t != "" && t[0] == '^' then ReadAtoms(t[1..]) else None
  }

  predicate InItem(c: char, item: Item) {
    match item
    case One(x) => c == x
    case Range(lo, hi) => lo <= c <= hi
  }

  predicate InClass(c: char, negated: bool, items: seq<Item>) {
    (exists i :: 0 <= i < |items| && InItem(c, items[i])) != negated
  }

  /** Matching from the start of the text; without `$` the rest of it is free. */
  predicate MatchAtoms(atoms: seq<Atom>, anchored: bool, t: string)
    decreases |atoms|, |t|
  {
    if atoms == [] then anchored ==> t == ""
    else
      match atoms[0]
      case Lit(c) => t != "" && t[0] == c && MatchAtoms(atoms[1..], anchored, t[1..])
      case AnyChar => t != "" && t[0] != '\n' && MatchAtoms(atoms[1..], anchored, t[1..])
      case AnyRun => MatchAtoms(atoms[1..], anchored, t)
                     || (t != "" && t[0] != '\n' && MatchAtoms(atoms, anchored, t[1..]))
      case OneOf(negated, items) => t != "" && InClass(t[0], negated, items) && MatchAtoms(atoms[1..], anchored, t[1..])
  }

  predicate RegexMatches(regex: string, t: string) {
    match ReadRegex(regex)
    case None => false
    case Some((atoms, anchored)) => MatchAtoms(atoms, anchored, t)
  }

  method WildmatMatches(pattern: string, text: string) returns (b: bool)
    ensures b == RegexMatches(RegexText(pattern), text)
    ensures Supported(pattern) ==> (b <==> Means(pattern, text, false))
    ensures Supported(pattern) && '\n' !in text ==> (b <==> Means(pattern, text, true))
  {
    var regex := PatternToRegex(pattern);
    b := RegexMatches(regex, text);
    if Supported(pattern) {
      CompilePreservesMeaning(pattern, text);
      if '\n' !in text { WildmatExact(pattern, text); }
    }
  }

  // ---- What a pattern means ----

  /** The items of a pattern's class: escaped, single and ranges of plain characters. */
  function PatternItems(s: string): (r: Option<(seq<Item>, string)>)
    ensures r.Some? ==> |r.value.1| < |s|
    decreases |s|
  {
    if s == "" then None
    else if s[0] == ']' then Some(([], s[1..]))
    else if s[0] == '\\' then
      if |s| > 1 then Prepend(One(s[1]), PatternItems(s[2..])) else None
    else if !ClassPlain(s[0]) then None
    else if |s| > 2 && s[1] == '-' then
      if ClassPlain(s[2]) && s[0] <= s[2] then Prepend(Range(s[0], s[2]), PatternItems(s[3..])) else None
    else Prepend(One(s[0]), PatternItems(s[1..]))
  }

  function PatternClass(s: string): (r: Option<(Atom, string)>)
    ensures r.Some? ==> |r.value.1| < |s| && r.value.0.OneOf?
  {
    match PatternItems(if Negates(s) then s[1..] else s)
    case None => None
    case Some((items, rest)) => if items == [] then None else Some((OneOf(Negates(s), items), rest))
  }

  /** No dangling backslash, and every class non-empty and made of such items. */
  predicate Supported(p: string)
    decreases |p|
  {
    if p == "" then true
    else if p[0] == '\\' then |p| > 1 && Supported(p[2..])
    else if p[0] == '[' && ']' in p[1..] then
      PatternClass(p[1..]).Some? && Supported(PatternClass(p[1..]).value.1)
    else Supported(p[1..])
  }

  /** A pattern against a text: `*` is any run, `?` any one character, of those a
      wildcard may stand for; `newlines` says whether a line feed is one of them. */
  predicate Means(p: string, t: string, newlines: bool)
    requires Supported(p)
    decreases |p|
  {
    if p == "" then t == ""
    else if p[0] == '*' then
      exists k :: 0 <= k <= |t| && (newlines || '\n' !in t[..k]) && Means(p[1..], t[k..], newlines)
    else if t == "" && p[0] != '*' then false
    else if p[0] == '?' then (newlines || t[0] != '\n') && Means(p[1..], t[1..], newlines)
    else if p[0] == '\\' then t[0] == p[1] && Means(p[2..], t[1..], newlines)
    else if p[0] == '[' && ']' in p[1..] then
      var (atom, rest) := PatternClass(p[1..]).value;
      InClass(t[0], atom.negated, atom.items) && Means(rest, t[1..], newlines)
    else t[0] == p[0] && Means(p[1..], t[1..], newlines)
  }

  /** The atoms the compiled text is meant to have. */
  function PatternAtoms(p: string): seq<Atom>
    requires Supported(p)
    decreases |p|
  {
    if p == "" then []
    else if p[0] == '*' then [AnyRun] + PatternAtoms(p[1..])
    else if p[0] == '?' then [AnyChar] + PatternAtoms(p[1..])
    else if p[0] == '\\' then [Lit(p[1])] + PatternAtoms(p[2..])
    else if p[0] == '[' && ']' in p[1..] then
      [PatternClass(p[1..]).value.0] + PatternAtoms(PatternClass(p[1..]).value.1)
    else [Lit(p[0])] + PatternAtoms(p[1..])
  }

  // ---- The emitted text is read back as it was meant ----

  lemma {:induction false} ItemsReadBack(s: string, tail: string)
    requires PatternItems(s).Some?
    ensures ClassBody(s).1 == PatternItems(s).value.1
    ensures ReadItems(ClassBody(s).0 + ("]" + tail)) == Some((PatternItems(s).value.0, tail))
    ensures ClassBody(s).0 == "" || ClassBody(s).0[0] != '-'
    decreases |s|
  {
    var end := "]" + tail;
    var body := ClassBody(s).0;
    if s[0] == ']' {
      assert body + end == end && end[1..] == tail;
    } else if s[0] == '\\' {
      ItemsReadBack(s[2..], tail);
      ItemRead(s[1], ClassBody(s[2..]).0 + end);
      Assoc(Escaped(s[1]), ClassBody(s[2..]).0, end);
    } else if |s| > 2 && s[1] == '-' {
      ItemsReadBack(s[3..], tail);
      RangeBody(s);
      var more := ClassBody(s[3..]).0;
      Assoc([s[0], '-', s[2]], more, end);
      assert ([s[0], '-', s[2]] + (more + end))[3..] == more + end;
    } else {
      ItemsReadBack(s[1..], tail);
      var more := ClassBody(s[1..]).0;
      Assoc([s[0]], more, end);
      assert ([s[0]] + (more + end))[1..] == more + end;
    }
  }

  lemma RangeBody(s: string)
    requires |s| > 2 && s[1] == '-' && ClassPlain(s[0]) && ClassPlain(s[2])
    ensures ClassBody(s) == ([s[0], '-', s[2]] + ClassBody(s[3..]).0, ClassBody(s[3..]).1)
  {
    var more := ClassBody(s[3..]).0;
    assert s[2..][1..] == s[3..] && s[1..][1..] == s[2..];
    assert ClassBody(s[2..]).0 == [s[2]] + more;
    assert ClassBody(s[1..]).0 == ['-'] + ([s[2]] + more);
    assert [s[0], '-', s[2]] + more == [s[0]] + (['-'] + ([s[2]] + more));
  }

  /** An escaped character is read as itself, whatever it is. */
  lemma ItemRead(c: char, t: string)
    requires t != "" && t[0] != '-'
    ensures ReadItems(Escaped(c) + t) == Prepend(One(c), ReadItems(t))
  {
    var s := Escaped(c) + t;
    if IsMeta(c) {
      assert s[2..] == t;
    } else {
      assert s[1..] == t && s[1] == t[0];
    }
  }

  lemma ClassReadBack(s: string, tail: string)
    requires PatternClass(s).Some?
    ensures Class(s).Some? && Class(s).value.1 == PatternClass(s).value.1
    ensures ReadClass(Class(s).value.0 + ("]" + tail)) == Some((PatternClass(s).value.0, tail))
  {
    var inner := if Negates(s) then s[1..] else s;
    ItemsReadBack(inner, tail);
    ItemsClosed(inner);
    var body := ClassBody(inner).0;
    var t := body + ("]" + tail);
    if Negates(s) {
      Assoc("^", body, "]" + tail);
      assert ("^" + t)[1..] == t;
    } else {
      FirstOfBody(s);
    }
  }

  lemma {:induction false} ItemsClosed(s: string)
    requires PatternItems(s).Some?
    ensures ']' in s
    decreases |s|
  {
    if s[0] == ']' {
    } else if s[0] == '\\' {
      ItemsClosed(s[2..]);
    } else if |s| > 2 && s[1] == '-' {
      ItemsClosed(s[3..]);
    } else {
      ItemsClosed(s[1..]);
    }
  }

  /** A class that does not negate emits no leading caret. */
  lemma FirstOfBody(s: string)
    requires PatternItems(s).Some? && !Negates(s)
    ensures ClassBody(s).0 == "" || ClassBody(s).0[0] != '^'
  {
    if s[0] == '\\' {
      assert Escaped(s[1])[0] != '^';
    }
  }

  lemma LiteralRead(c: char, t: string)
    requires t != ""
    ensures ReadAtoms(Escaped(c) + t) == Prepend(Lit(c), ReadAtoms(t))
  {
    var s := Escaped(c) + t;
    if IsMeta(c) {
      assert s[2..] == t;
    } else {
      assert s[1..] == t && s != "$";
    }
  }

  /** The first element of a pattern: its regex text, its atom, and the pattern behind it. */
  function First(p: string): (r: (string, Atom, string))
    requires Supported(p) && p != ""
    ensures |r.2| < |p| && Supported(r.2)
  {
    if p[0] == '*' then (".*", AnyRun, p[1..])
    else if p[0] == '?' then (".", AnyChar, p[1..])
    else if p[0] == '\\' then (Escaped(p[1]), Lit(p[1]), p[2..])
    else if p[0] == '[' && ']' in p[1..] then
      var (atom, rest) := PatternClass(p[1..]).value;
      ("[" + (if Class(p[1..]).Some? then Class(p[1..]).value.0 else "") + "]", atom, rest)
    else (Escaped(p[0]), Lit(p[0]), p[1..])
  }

  lemma FirstExactly(p: string)
    requires Supported(p) && p != ""
    ensures var (piece, atom, rest) := First(p);
            Body(p) == piece + Body(rest) && PatternAtoms(p) == [atom] + PatternAtoms(rest)
            && piece != "" && piece[0] != '*'
  {
    if p[0] == '[' && ']' in p[1..] {
      ClassReadBack(p[1..], "");
    } else if p[0] == '[' {
      assert Escaped('[') == "\\[";
    }
  }

  lemma FirstRead(p: string, t: string)
    requires Supported(p) && p != "" && t != "" && t[0] != '*'
    ensures ReadAtoms(First(p).0 + t) == Prepend(First(p).1, ReadAtoms(t))
  {
    if p[0] == '*' {
      assert (".*" + t)[2..] == t;
    } else if p[0] == '?' {
      assert ("." + t)[1..] == t && ("." + t)[1] == t[0];
    } else if p[0] == '\\' {
      LiteralRead(p[1], t);
    } else if p[0] == '[' && ']' in p[1..] {
      ClassReadBack(p[1..], t);
      var class_ := Class(p[1..]).value.0;
      Assoc("[" + class_, "]", t);
      Assoc("[", class_, "]" + t);
      var u := class_ + ("]" + t);
      assert ("[" + u)[1..] == u;
    } else {
      LiteralRead(p[0], t);
    }
  }

  /** The compiled text in front of any continuation that does not start with a star. */
  lemma {:induction false} BodyReadBack(p: string, tail: string)
    requires Supported(p) && tail != "" && tail[0] != '*' && ReadAtoms(tail).Some?
    ensures ReadAtoms(Body(p) + tail) ==
            Some((PatternAtoms(p) + ReadAtoms(tail).value.0, ReadAtoms(tail).value.1))
    ensures Body(p) == "" || Body(p)[0] != '*'
    decreases |p|
  {
    var last := ReadAtoms(tail).value.0;
    if p == "" {
      assert Body(p) + tail == tail && PatternAtoms(p) + last == last;
    } else {
      hide First, ReadAtoms, Body, Supported, PatternAtoms;
      FirstExactly(p);
      var (piece, atom, rest) := First(p);
      BodyReadBack(rest, tail);
      FirstRead(p, Body(rest) + tail);
      Assoc(piece, Body(rest), tail);
      Assoc([atom], PatternAtoms(rest), last);
    }
  }

  /** The atoms of a pattern match what the pattern means. */
  lemma {:induction false} AtomsMean(p: string, t: string)
    requires Supported(p)
    ensures MatchAtoms(PatternAtoms(p), true, t) <==> Means(p, t, false)
    decreases |p|, |t|
  {
    if p != "" {
      var atoms := PatternAtoms(p);
      if p[0] == '*' {
        assert atoms[1..] == PatternAtoms(p[1..]);
        AtomsMean(p[1..], t);
        if t != "" { AtomsMean(p, t[1..]); }
        StarUnfolds(p, t);
      } else if t != "" {
        if p[0] == '\\' {
          AtomsMean(p[2..], t[1..]);
          assert atoms[1..] == PatternAtoms(p[2..]);
        } else if p[0] == '[' && ']' in p[1..] {
          var rest := PatternClass(p[1..]).value.1;
          AtomsMean(rest, t[1..]);
          assert atoms[1..] == PatternAtoms(rest);
        } else {
          AtomsMean(p[1..], t[1..]);
          assert atoms[1..] == PatternAtoms(p[1..]);
        }
      }
    }
  }

  lemma StarUnfolds(p: string, t: string)
    requires Supported(p) && p != "" && p[0] == '*'
    ensures Means(p, t, false) <==>
            Means(p[1..], t, false) || (t != "" && t[0] != '\n' && Means(p, t[1..], false))
  {
    hide Means;
    StarTakes(p, t);
    if t != "" { StarTakes(p, t[1..]); }
    TakesUnfolds(p[1..], t);
  }

  /** The star takes the first `k` characters and the pattern goes on behind them. */
  predicate Takes(rest: string, t: string, k: nat)
    requires Supported(rest)
  {
    k <= |t| && '\n' !in t[..k] && Means(rest, t[k..], false)
  }

  lemma StarTakes(p: string, t: string)
    requires Supported(p) && p != "" && p[0] == '*'
    ensures Means(p, t, false) <==> exists k: nat :: Takes(p[1..], t, k)
  {
    if Means(p, t, false) {
      var k :| 0 <= k <= |t| && '\n' !in t[..k] && Means(p[1..], t[k..], false);
      assert Takes(p[1..], t, k);
    }
  }

  lemma TakesNone(rest: string, t: string)
    requires Supported(rest)
    ensures Takes(rest, t, 0) <==> Means(rest, t, false)
  {
    hide Means, Supported;
    assert t[0..] == t && t[..0] == "";
  }

  lemma TakesOneMore(rest: string, t: string, k: nat)
    requires Supported(rest)
    ensures Takes(rest, t, k + 1) <==> t != "" && t[0] != '\n' && Takes(rest, t[1..], k)
  {
    hide Means, Supported;
    if k < |t| {
      assert t[..k + 1] == [t[0]] + t[1..][..k] && t[k + 1..] == t[1..][k..];
    }
  }

  lemma TakesUnfolds(rest: string, t: string)
    requires Supported(rest)
    ensures (exists k: nat :: Takes(rest, t, k)) <==>
            Means(rest, t, false) || (t != "" && t[0] != '\n' && exists k: nat :: Takes(rest, t[1..], k))
  {
    hide Means, Supported, Takes;
    TakesNone(rest, t);
    if k: nat :| Takes(rest, t, k) {
      if k > 0 { TakesOneMore(rest, t, k - 1); }
    }
    if t != "" {
      if k: nat :| Takes(rest, t[1..], k) { TakesOneMore(rest, t, k); }
    }
  }

  /** Compiling a supported pattern preserves its meaning, on every text. */
  lemma CompilePreservesMeaning(p: string, t: string)
    requires Supported(p)
    ensures RegexMatches(RegexText(p), t) <==> Means(p, t, false)
  {
    BodyReadBack(p, "$");
    var text := RegexText(p);
    assert text[1..] == Body(p) + "$";
    assert PatternAtoms(p) + [] == PatternAtoms(p);
    AtomsMean(p, t);
  }

  /** On a text of one line, a wildcard stands for any character. */
  lemma {:induction false} OneLineText(p: string, t: string)
    requires Supported(p) && '\n' !in t
    ensures Means(p, t, false) <==> Means(p, t, true)
    decreases |p|
  {
    if p != "" {
      if p[0] == '*' {
        forall k | 0 <= k <= |t|
          ensures Means(p[1..], t[k..], false) <==> Means(p[1..], t[k..], true)
        {
          OneLineText(p[1..], t[k..]);
        }
        assert forall k :: 0 <= k <= |t| ==> '\n' !in t[..k];
      } else if t != "" {
        if p[0] == '\\' {
          OneLineText(p[2..], t[1..]);
        } else if p[0] == '[' && ']' in p[1..] {
          OneLineText(PatternClass(p[1..]).value.1, t[1..]);
        } else {
          OneLineText(p[1..], t[1..]);
        }
      }
    }
  }

  lemma WildmatExact(p: string, t: string)
    requires Supported(p) && '\n' !in t
    ensures RegexMatches(RegexText(p), t) <==> Means(p, t, true)
  {
    CompilePreservesMeaning(p, t);
    OneLineText(p, t);
  }

  // ---- A dangling backslash ----

  /** `t` is matched by `a` up to `k` and by `b` behind it. */
  predicate MatchSplit(a: seq<Atom>, b: seq<Atom>, anchored: bool, t: string, k: nat) {
    k <= |t| && MatchAtoms(a, true, t[..k]) && MatchAtoms(b, anchored, t[k..])
  }

  lemma SplitShift(a: seq<Atom>, left: seq<Atom>, b: seq<Atom>, anchored: bool, t: string, k: nat)
    requires t != "" && k < |t|
    requires MatchAtoms(a, true, t[..k + 1]) <==> MatchAtoms(left, true, t[..k + 1][1..])
    ensures MatchSplit(a, b, anchored, t, k + 1) <==> MatchSplit(left, b, anchored, t[1..], k)
  {
    assert t[..k + 1][1..] == t[1..][..k] && t[k + 1..] == t[1..][k..];
  }

  lemma {:induction false} MatchConcat(a: seq<Atom>, b: seq<Atom>, anchored: bool, t: string)
    ensures MatchAtoms(a + b, anchored, t) <==> exists k: nat :: MatchSplit(a, b, anchored, t, k)
    decreases |a|, |t|
  {
    if a == [] {
      assert a + b == b && t[..0] == "" && t[0..] == t;
      assert MatchSplit(a, b, anchored, t, 0) <==> MatchAtoms(b, anchored, t);
    } else {
      var rest := a[1..];
      assert (a + b)[0] == a[0] && (a + b)[1..] == rest + b;
      assert t[..0] == "";
      if a[0].AnyRun? {
        MatchConcat(rest, b, anchored, t);
        if t != "" { MatchConcat(a, b, anchored, t[1..]); }
        RunSplits(a, b, anchored, t);
      } else if t != "" {
        MatchConcat(rest, b, anchored, t[1..]);
        OneSplits(a, b, anchored, t);
      }
    }
  }

  lemma OneShift(a: seq<Atom>, b: seq<Atom>, anchored: bool, t: string, k: nat)
    requires a != [] && !a[0].AnyRun? && t != "" && k < |t|
    ensures MatchSplit(a, b, anchored, t, k + 1)
            <==> MatchAtoms([a[0]], false, t) && MatchSplit(a[1..], b, anchored, t[1..], k)
  {
    assert [a[0]][1..] == [] && t[..k + 1][0] == t[0];
    if MatchAtoms([a[0]], false, t) { SplitShift(a, a[1..], b, anchored, t, k); }
  }

  lemma OneSplits(a: seq<Atom>, b: seq<Atom>, anchored: bool, t: string)
    requires a != [] && !a[0].AnyRun? && t != ""
    ensures (exists k: nat :: MatchSplit(a, b, anchored, t, k))
            <==> MatchAtoms([a[0]], false, t) && exists k: nat :: MatchSplit(a[1..], b, anchored, t[1..], k)
  {
    if k: nat :| MatchSplit(a, b, anchored, t, k) {
      assert k > 0 by { assert t[..0] == ""; }
      OneShift(a, b, anchored, t, k - 1);
    }
    if k: nat :| MatchSplit(a[1..], b, anchored, t[1..], k) {
      OneShift(a, b, anchored, t, k);
    }
  }

  lemma RunSplits(a: seq<Atom>, b: seq<Atom>, anchored: bool, t: string)
    requires a != [] && a[0].AnyRun?
    ensures (exists k: nat :: MatchSplit(a, b, anchored, t, k)) <==>
            (exists k: nat :: MatchSplit(a[1..], b, anchored, t, k))
            || (t != "" && t[0] != '\n' && exists k: nat :: MatchSplit(a, b, anchored, t[1..], k))
  {
    if k: nat :| MatchSplit(a, b, anchored, t, k) {
      if !MatchSplit(a[1..], b, anchored, t, k) {
        assert k > 0 && t[..k][0] == t[0];
        SplitShift(a, a, b, anchored, t, k - 1);
      }
    }
    if k: nat :| MatchSplit(a[1..], b, anchored, t, k) {
      assert MatchSplit(a, b, anchored, t, k);
    }
    if t != "" && t[0] != '\n' {
      if k: nat :| MatchSplit(a, b, anchored, t[1..], k) {
        assert t[..k + 1][0] == t[0] && t[..k + 1][1..] == t[1..][..k];
        assert MatchAtoms(a, true, t[..k + 1]);
        assert t[k + 1..] == t[1..][k..];
        assert MatchSplit(a, b, anchored, t, k + 1);
      }
    }
  }

  /** The compiled form of a supported pattern followed by a lone backslash loses its
      end anchor: the text may go on freely behind a dollar sign. */
  lemma DanglingBackslash(p: string, t: string)
    requires Supported(p)
    ensures RegexMatches(RegexText(p + "\\"), t) <==>
            exists k :: 0 <= k < |t| && t[k] == '$' && Means(p, t[..k], false)
  {
    BodyAppend(p);
    DanglingRead(p);
    MatchConcat(PatternAtoms(p), [Lit('$')], false, t);
    forall k: nat | k <= |t|
      ensures MatchSplit(PatternAtoms(p), [Lit('$')], false, t, k) <==> k < |t| && t[k] == '$' && Means(p, t[..k], false)
    {
      AtomsMean(p, t[..k]);
      DollarFree(t[k..]);
    }
  }

  /** So the pattern of an `a` and a backslash matches a text that it does not describe. */
  lemma DanglingMatch()
    ensures RegexMatches(RegexText("a\\"), "a$b") && !RegexMatches(RegexText("a\\"), "a")
  {
    assert "a" + "\\" == "a\\";
    DanglingBackslash("a", "a$b");
    DanglingBackslash("a", "a");
    assert "a$b"[1] == '$' && "a$b"[..1] == "a" && Means("a", "a", false);
  }

  lemma DollarFree(t: string)
    ensures MatchAtoms([Lit('$')], false, t) <==> t != "" && t[0] == '$'
  {
    assert [Lit('$')][1..] == [];
  }

  lemma DanglingRead(p: string)
    requires Supported(p)
    ensures ReadRegex("^" + (Body(p) + "\\" + "$")) == Some((PatternAtoms(p) + [Lit('$')], false))
  {
    var end := "\\$";
    assert end[2..] == "" && end[0] == '\\' && end[1] == '$' && IsMeta('$');
    assert ReadAtoms("") == Some(([], false));
    assert ReadAtoms(end) == Some(([Lit('$')] + [], false));
    assert [Lit('$')] + [] == [Lit('$')];
    BodyReadBack(p, end);
    assert "\\" + "$" == end;
    Assoc(Body(p), "\\", "$");
    assert Body(p) + "\\" + "$" == Body(p) + end;
    assert ("^" + (Body(p) + end))[1..] == Body(p) + end;
  }

  lemma {:induction false} BodyAppend(p: string)
    requires Supported(p)
    ensures Body(p + "\\") == Body(p) + "\\"
    decreases |p|
  {
    var q := p + "\\";
    if p == "" {
      assert q == "\\";
    } else if p[0] == '\\' {
      BodyAppend(p[2..]);
      assert q[2..] == p[2..] + "\\";
      Assoc(Escaped(p[1]), Body(p[2..]), "\\");
    } else if p[0] == '[' && ']' in p[1..] {
      var rest := PatternClass(p[1..]).value.1;
      assert q[1..] == p[1..] + "\\";
      ClassAppend(p[1..]);
      BodyAppend(rest);
      var class_ := Class(p[1..]).value.0;
      Assoc("[" + class_ + "]", Body(rest), "\\");
    } else {
      BodyAppend(p[1..]);
      assert q[1..] == p[1..] + "\\";
      if p[0] == '*' {
        Assoc(".*", Body(p[1..]), "\\");
      } else if p[0] == '?' {
        Assoc(".", Body(p[1..]), "\\");
      } else {
        assert p[0] == '[' ==> Escaped(p[0]) == "\\[";
        Assoc(Escaped(p[0]), Body(p[1..]), "\\");
      }
    }
  }

  lemma ClassAppend(s: string)
    requires PatternClass(s).Some?
    ensures Class(s).Some? && Class(s).value.1 == PatternClass(s).value.1
    ensures Class(s + "\\") == Some((Class(s).value.0, Class(s).value.1 + "\\"))
  {
    var inner := if Negates(s) then s[1..] else s;
    ClassReadBack(s, "");
    ItemsAppend(inner);
    assert s != "" by { ItemsClosed(inner); }
    assert (s + "\\")[1..] == s[1..] + "\\";
  }

  lemma {:induction false} ItemsAppend(s: string)
    requires PatternItems(s).Some?
    ensures ClassBody(s + "\\") == (ClassBody(s).0, ClassBody(s).1 + "\\")
    decreases |s|
  {
    var q := s + "\\";
    if s[0] == ']' {
      assert q[1..] == s[1..] + "\\";
    } else if s[0] == '\\' {
      ItemsAppend(s[2..]);
      assert q[2..] == s[2..] + "\\";
    } else if |s| > 2 && s[1] == '-' {
      ItemsAppend(s[3..]);
      assert q[3..] == s[3..] + "\\";
      RangeBody(s);
      RangeBody(q);
    } else {
      ItemsAppend(s[1..]);
      assert q[1..] == s[1..] + "\\";
    }
  }

  // ---- Patterns written out ----

  /** The characters with a meaning in an expression. */
  lemma MetaExactly(c: char)
    ensures IsMeta(c) <==> exists i :: 0 <= i < |META| && META[i] == c
  {
    assert META[0] == '#' && META[1] == '$' && META[2] == '&' && META[3] == '(' && META[4] == ')' && META[5] == '*';
    assert META[6] == '+' && META[7] == '-' && META[8] == '.' && META[9] == '?' && META[10] == '[' && META[11] == '\\';
    assert META[12] == ']' && META[13] == '^' && META[14] == '{' && META[15] == '|' && META[16] == '}' && META[17] == '~';
  }

  const META: string := "#$&()*+-.?[\\]^{|}~"

  predicate Plain(c: char) { 'a' <= c <= 'z' || 'A' <= c <= 'Z' || '0' <= c <= '9' }

  /** A letter, a digit, or a range of them. */
  predicate PlainItem(item: Item) {
    match item
    case One(c) => Plain(c)
    case Range(lo, hi) => Plain(lo) && Plain(hi) && lo <= hi
  }

  function PrintItem(item: Item): string {
    match item
    case One(c) => [c]
    case Range(lo, hi) => [lo, '-', hi]
  }

  function PrintItems(items: seq<Item>): string {
    if items == [] then "" else PrintItem(items[0]) + PrintItems(items[1..])
  }

  /** The character is one of the items or in the range of one. */
  predicate Listed(c: char, items: seq<Item>) {
    exists i :: 0 <= i < |items|
                && ((items[i].One? && items[i].c == c) || (items[i].Range? && items[i].lo <= c && c <= items[i].hi))
  }

  lemma OnePrinted(c: char, more: string)
    requires Plain(c) && more != "" && more[0] != '-'
    ensures PatternItems([c] + more) == Prepend(One(c), PatternItems(more))
  {
    assert ([c] + more)[1..] == more && ([c] + more)[1] == more[0];
  }

  lemma RangePrinted(lo: char, hi: char, more: string)
    requires Plain(lo) && Plain(hi) && lo <= hi
    ensures PatternItems([lo, '-', hi] + more) == Prepend(Range(lo, hi), PatternItems(more))
  {
    assert ([lo, '-', hi] + more)[3..] == more;
  }

  lemma {:induction false} ItemsPrinted(items: seq<Item>, rest: string)
    requires forall item :: item in items ==> PlainItem(item)
    ensures PatternItems(PrintItems(items) + ("]" + rest)) == Some((items, rest))
    ensures items != [] ==> PrintItems(items) != "" && Plain(PrintItems(items)[0])
  {
    var end := "]" + rest;
    if items == [] {
      assert PrintItems(items) + end == end && end[1..] == rest;
    } else {
      var item, others := items[0], items[1..];
      assert item in items && forall i :: i in others ==> i in items;
      ItemsPrinted(others, rest);
      var more := PrintItems(others) + end;
      assert more[0] != '-';
      Assoc(PrintItem(item), PrintItems(others), end);
      hide PatternItems;
      match item {
        case One(c) => OnePrinted(c, more);
        case Range(lo, hi) => RangePrinted(lo, hi, more);
      }
      assert items == [item] + others;
    }
  }

  lemma ClassPrinted(mark: string, items: seq<Item>)
    requires mark == "" || mark == "!" || mark == "^"
    requires items != [] && forall item :: item in items ==> PlainItem(item)
    ensures PatternClass(mark + (PrintItems(items) + "]")) == Some((OneOf(mark != "", items), ""))
  {
    ItemsPrinted(items, "");
    hide PatternItems, PrintItems;
    var body := PrintItems(items) + "]";
    assert "]" + "" == "]";
    if mark == "" {
      assert mark + body == body && body[0] == PrintItems(items)[0];
    } else {
      assert (mark + body)[1..] == body;
    }
  }

  /** One class is the whole pattern. */
  lemma ClassMeans(inner: string, negated: bool, items: seq<Item>, c: char)
    requires PatternClass(inner) == Some((OneOf(negated, items), "")) && ']' in inner
    ensures Supported("[" + inner) && (Means("[" + inner, [c], false) <==> InClass(c, negated, items))
  {
    hide PatternClass;
    assert ("[" + inner)[1..] == inner && [c][1..] == "";
    assert Supported("") && Means("", "", false);
  }

  /** A class of one character: with `!` or `^` in front it is for the characters that are not
      listed, without either for those that are. */
  lemma ClassExactly(mark: string, items: seq<Item>, c: char)
    requires mark == "" || mark == "!" || mark == "^"
    requires items != [] && forall item :: item in items ==> PlainItem(item)
    ensures Supported("[" + (mark + (PrintItems(items) + "]")))
    ensures RegexMatches(RegexText("[" + (mark + (PrintItems(items) + "]"))), [c])
            <==> if mark == "" then Listed(c, items) else !Listed(c, items)
  {
    var inner := mark + (PrintItems(items) + "]");
    ClassPrinted(mark, items);
    assert InClass(c, mark != "", items) <==> (Listed(c, items) != (mark != ""));
    assert inner[|inner| - 1] == ']' && ']' in inner;
    hide PatternClass, PatternItems, PrintItems, Means, InClass, RegexMatches, RegexText, Supported;
    ClassMeans(inner, mark != "", items, c);
    CompilePreservesMeaning("[" + inner, [c]);
  }

  /** Characters with no meaning in a pattern. */
  predicate Literal(s: string) { forall c :: c in s ==> c != '*' && c != '?' && c != '[' && c != '\\' }

  lemma LiteralFirst(c: char, q: string, t: string)
    requires c != '*' && c != '?' && c != '[' && c != '\\' && Supported(q)
    ensures Supported([c] + q)
    ensures Means([c] + q, t, true) <==> t != "" && t[0] == c && Means(q, t[1..], true)
  {
    assert ([c] + q)[1..] == q;
  }

  lemma {:induction false} LiteralPrefix(a: string, q: string, t: string)
    requires Literal(a) && Supported(q)
    ensures Supported(a + q)
    ensures Means(a + q, t, true) <==> a <= t && Means(q, t[|a|..], true)
  {
    hide Means, Supported;
    if a == "" {
      assert a + q == q && t[0..] == t;
    } else {
      var c, rest := a[0], a[1..];
      assert c in a && forall d :: d in rest ==> d in a;
      LiteralPrefix(rest, q, if t != "" then t[1..] else "");
      LiteralFirst(c, rest + q, t);
      assert a + q == [c] + (rest + q) && a == [c] + rest;
      if t != "" { assert t == [t[0]] + t[1..]; }
      if a <= t { assert t[1..][|rest|..] == t[|a|..]; }
    }
  }

  /** A pattern without special characters matches itself alone. */
  lemma LiteralExactly(a: string, t: string)
    requires Literal(a) && '\n' !in t
    ensures RegexMatches(RegexText(a), t) <==> t == a
  {
    LiteralPrefix(a, "", t);
    assert a + "" == a;
    WildmatExact(a, t);
  }

  /** A question mark stands for one character. */
  lemma QuestionExactly(a: string, b: string, t: string)
    requires Literal(a) && Literal(b) && '\n' !in t
    ensures RegexMatches(RegexText(a + ("?" + b)), t) <==> |t| == |a| + 1 + |b| && a <= t && t[|a| + 1..] == b
  {
    var q := "?" + b;
    assert q[1..] == b;
    LiteralPrefix(b, "", "");
    assert b + "" == b;
    LiteralPrefix(a, q, t);
    if a <= t && |t| > |a| {
      assert t[|a|..][1..] == t[|a| + 1..];
      LiteralPrefix(b, "", t[|a| + 1..]);
    }
    WildmatExact(a + q, t);
  }

  /** A star stands for any number of them, none included. */
  lemma StarExactly(a: string, b: string, t: string)
    requires Literal(a) && Literal(b) && '\n' !in t
    ensures RegexMatches(RegexText(a + ("*" + b)), t) <==> |t| >= |a| + |b| && a <= t && t[|t| - |b|..] == b
  {
    var q := "*" + b;
    assert q[1..] == b && b + "" == b;
    LiteralPrefix(b, "", "");
    LiteralPrefix(a, q, t);
    WildmatExact(a + q, t);
    if a <= t {
      StarThenLiteral(b, t[|a|..]);
      assert |t| >= |a| + |b| ==> t[|a|..][|t[|a|..]| - |b|..] == t[|t| - |b|..];
    }
  }

  lemma StarThenLiteral(b: string, t: string)
    requires Literal(b) && Supported("*" + b)
    ensures Means("*" + b, t, true) <==> |t| >= |b| && t[|t| - |b|..] == b
  {
    var q := "*" + b;
    assert q[1..] == b && b + "" == b;
    LiteralPrefix(b, "", "");
    forall k | 0 <= k <= |t|
      ensures Means(b, t[k..], true) <==> t[k..] == b
    {
      LiteralPrefix(b, "", t[k..]);
    }
    if |t| >= |b| && t[|t| - |b|..] == b { assert Means(b, t[|t| - |b|..], true); }
  }

  /** A backslash takes the meaning from whatever character it stands before. */
  lemma EscapeExactly(c: char, d: char)
    ensures RegexMatches(RegexText("\\" + [c]), [d]) <==> d == c
  {
    var p := "\\" + [c];
    assert p[2..] == "" && [d][1..] == "";
    CompilePreservesMeaning(p, [d]);
  }
}
