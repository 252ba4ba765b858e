/** The article store (src/storage/sqlite.rs): four tables, and the operations
    on them as the SQL statements that make them up. */
module Store {
  import opened Text
  import opened Wire

  datatype Key = Key(group: string, number: nat)
  datatype Row = Row(id: string, insertedAt: int)
  datatype Stored = Stored(article: Message, size: nat)
  datatype GroupInfo = GroupInfo(createdAt: int, moderated: bool, description: string)

  datatype Db = Db(
    messages: map<string, Stored>,
    rows: map<Key, Row>,
    groups: map<string, GroupInfo>,
    overview: map<Key, string>)

  const I64_MAX: nat := 0x7fff_ffff_ffff_ffff

  // ---- Reading an article's headers ----

  /** The first value of a header. */
  function HeaderValue(headers: seq<Header>, name: string): Option<string> {
    if headers == [] then None
    else if EqIgnoreCase(headers[0].name, name) then Some(headers[0].value)
    else HeaderValue(headers[1..], name)
  }

  function ValueOr(headers: seq<Header>, name: string): string {
    var v := HeaderValue(headers, name);
    if v.Some? then v.value else ""
  }

  function ArticleId(article: Message): Option<string> { HeaderValue(article.headers, "Message-ID") }

  function NonEmptyTrimmed(parts: seq<string>): seq<string> {
    if parts == [] then []
    else (if Trim(parts[0]) == "" then [] else [Trim(parts[0])]) + NonEmptyTrimmed(parts[1..])
  }

  function Newsgroups(article: Message): seq<string> {
    match HeaderValue(article.headers, "Newsgroups")
    case None => []
    case Some(v) => NonEmptyTrimmed(Split(v, ','))
  }

  // ---- Overview ----

  function OverviewFields(article: Message, bytes: nat): string {
    var h := article.headers;
    ValueOr(h, "Subject") + "\t" + ValueOr(h, "From") + "\t" + ValueOr(h, "Date") + "\t"
    + ValueOr(h, "Message-ID") + "\t" + ValueOr(h, "References") + "\t"
    + Decimal(bytes) + "\t" + Decimal(|Lines(article.body)|)
  }

  /** The recorded size when the message is stored, its body's otherwise. */
  function OverviewBytes(messages: map<string, Stored>, article: Message): nat {
    var id := ArticleId(article);
    if id.Some? && id.value in messages then messages[id.value].size else Bytes(article.body)
  }

  function OverviewLine(number: nat, article: Message, bytes: nat): string {
    Decimal(number) + ("\t" + OverviewFields(article, bytes))
  }

  /** The value is that of the first header of the name, empty when there is none. */
  predicate FirstValue(headers: seq<Header>, name: string, v: string) {
    (v == "" && forall i :: 0 <= i < |headers| ==> !EqIgnoreCase(headers[i].name, name))
    || exists i :: 0 <= i < |headers| && EqIgnoreCase(headers[i].name, name) && headers[i].value == v
                   && forall j :: 0 <= j < i ==> !EqIgnoreCase(headers[j].name, name)
  }

  lemma {:induction false} ValueIsFirst(headers: seq<Header>, name: string)
    ensures FirstValue(headers, name, ValueOr(headers, name))
    ensures HeaderValue(headers, name).Some? <==> exists i :: 0 <= i < |headers| && EqIgnoreCase(headers[i].name, name)
  {
    hide EqIgnoreCase;
    if headers != [] && !EqIgnoreCase(headers[0].name, name) {
      var rest := headers[1..];
      ValueIsFirst(rest, name);
      assert ValueOr(headers, name) == ValueOr(rest, name);
      assert forall i :: 0 < i < |headers| ==> headers[i] == rest[i - 1];
      if i :| 0 <= i < |rest| && EqIgnoreCase(rest[i].name, name) && rest[i].value == ValueOr(rest, name)
              && forall j :: 0 <= j < i ==> !EqIgnoreCase(rest[j].name, name) {
        assert headers[i + 1] == rest[i];
      }
    }
  }

  predicate TabFree(article: Message) { forall h :: h in article.headers ==> '\t' !in h.value }

  /** Split at its tabs, the line is the eight fields of an overview: number, Subject, From,
      Date, Message-ID, References, bytes and lines. */
  predicate Describes(line: string, number: nat, article: Message, bytes: nat) {
    var f, h := Split(line, '\t'), article.headers;
    |f| == 8 && f[0] == Decimal(number) && FirstValue(h, "Subject", f[1]) && FirstValue(h, "From", f[2])
    && FirstValue(h, "Date", f[3]) && FirstValue(h, "Message-ID", f[4]) && FirstValue(h, "References", f[5])
    && f[6] == Decimal(bytes) && f[7] == Decimal(|Lines(article.body)|)
  }

  lemma FieldsJoined(a: string, b: string, c: string, d: string, e: string, f: string, g: string)
    ensures a + "\t" + b + "\t" + c + "\t" + d + "\t" + e + "\t" + f + "\t" + g == Joined([a, b, c, d, e, f, g], '\t')
  {
    var t := "\t";
    JoinedCons(f, [g]);
    JoinedCons(e, [f, g]);
    JoinedCons(d, [e, f, g]);
    JoinedCons(c, [d, e, f, g]);
    JoinedCons(b, [c, d, e, f, g]);
    JoinedCons(a, [b, c, d, e, f, g]);
    assert [f] + [g] == [f, g] && [e] + [f, g] == [e, f, g] && [d] + [e, f, g] == [d, e, f, g];
    assert [c] + [d, e, f, g] == [c, d, e, f, g] && [b] + [c, d, e, f, g] == [b, c, d, e, f, g];
    assert [a] + [b, c, d, e, f, g] == [a, b, c, d, e, f, g];
    hide Joined;
    Assoc3(a + t + b + t + c + t + d + t + e, t, f, t + g);
    Assoc3(a + t + b + t + c + t + d, t, e, t + (f + (t + g)));
    Assoc3(a + t + b + t + c, t, d, t + (e + (t + (f + (t + g)))));
    Assoc3(a + t + b, t, c, t + (d + (t + (e + (t + (f + (t + g)))))));
    Assoc3(a, t, b, t + (c + (t + (d + (t + (e + (t + (f + (t + g)))))))));
    Assoc(a + t + b + t + c + t + d + t + e + t + f, t, g);
  }

  lemma Assoc3(a: string, b: string, c: string, d: string)
    ensures ((a + b) + c) + d == a + (b + (c + d))
  {
    Assoc(a + b, c, d);
    Assoc(a, b, c + d);
  }

  lemma JoinedCons(part: string, rest: seq<string>)
    requires rest != []
    ensures Joined([part] + rest, '\t') == part + ("\t" + Joined(rest, '\t'))
  {
    assert ([part] + rest)[1..] == rest;
    Assoc(part, "\t", Joined(rest, '\t'));
  }

  lemma ValueTabFree(article: Message, name: string)
    requires TabFree(article)
    ensures '\t' !in ValueOr(article.headers, name)
  {
    ValueIsFirst(article.headers, name);
    var v := ValueOr(article.headers, name);
    if i :| 0 <= i < |article.headers| && article.headers[i].value == v { assert article.headers[i] in article.headers; }
  }

  function LineParts(number: nat, article: Message, bytes: nat): seq<string> {
    var h := article.headers;
    [Decimal(number), ValueOr(h, "Subject"), ValueOr(h, "From"), ValueOr(h, "Date"), ValueOr(h, "Message-ID"),
     ValueOr(h, "References"), Decimal(bytes), Decimal(|Lines(article.body)|)]
  }

  lemma LineJoined(number: nat, article: Message, bytes: nat)
    ensures OverviewLine(number, article, bytes) == Joined(LineParts(number, article, bytes), '\t')
  {
    hide Joined, Decimal, Lines, ValueOr;
    var p := LineParts(number, article, bytes);
    FieldsJoined(p[1], p[2], p[3], p[4], p[5], p[6], p[7]);
    JoinedCons(p[0], [p[1], p[2], p[3], p[4], p[5], p[6], p[7]]);
    assert [p[0]] + [p[1], p[2], p[3], p[4], p[5], p[6], p[7]] == p;
  }

  lemma PartsTabFree(number: nat, article: Message, bytes: nat)
    requires TabFree(article)
    ensures forall part :: part in LineParts(number, article, bytes) ==> '\t' !in part
  {
    hide Decimal, Lines, ValueOr, TabFree;
    ValueTabFree(article, "Subject");
    ValueTabFree(article, "From");
    ValueTabFree(article, "Date");
    ValueTabFree(article, "Message-ID");
    ValueTabFree(article, "References");
  }

  /** For header values without tabs the overview line describes the article. */
  lemma LineDescribes(number: nat, article: Message, bytes: nat)
    requires TabFree(article)
    ensures Describes(OverviewLine(number, article, bytes), number, article, bytes)
  {
    LineJoined(number, article, bytes);
    PartsTabFree(number, article, bytes);
    JoinedSplit(LineParts(number, article, bytes), '\t');
    var h := article.headers;
    hide ValueOr, Decimal, Lines, Joined, OverviewLine, TabFree, FirstValue;
    ValueIsFirst(h, "Subject");
    ValueIsFirst(h, "From");
    ValueIsFirst(h, "Date");
    ValueIsFirst(h, "Message-ID");
    ValueIsFirst(h, "References");
  }

  // ---- Numbers of a group ----

  function Numbers(keys: set<Key>, group: string): set<nat> {
    set k | k in keys && k.group == group :: k.number
  }

  lemma InNumbers(keys: set<Key>, group: string, n: nat)
    ensures n in Numbers(keys, group) <==> Key(group, n) in keys
  {
    if n in Numbers(keys, group) {
      var k :| k in keys && k.group == group && k.number == n;
      assert k == Key(group, n);
    }
    if Key(group, n) in keys { assert Key(group, n).number == n; }
  }

  ghost function MaxOf(s: set<nat>): (m: nat)
    ensures forall x :: x in s ==> x <= m
    ensures if s == {} then m == 0 else m in s
  {
    if s == {} then 0
    else
      var x :| x in s;
      var m := MaxOf(s - {x});
      assert forall y :: y in s ==> y == x || y in s - {x};
      if x > m then x else m
  }

  ghost function MaxNumber(rows: map<Key, Row>, group: string): nat { MaxOf(Numbers(rows.Keys, group)) }

  lemma AboveMax(rows: map<Key, Row>, group: string, n: nat)
    requires n > MaxNumber(rows, group)
    ensures Key(group, n) !in rows
  {
    InNumbers(rows.Keys, group, n);
  }

  lemma NoNumbers(rows: map<Key, Row>, g: string)
    requires rows == map[]
    ensures MaxNumber(rows, g) == 0
  {
    assert Numbers(rows.Keys, g) == {};
  }

  /** A set of numbers in ascending order. */
  ghost function Ascending(s: set<nat>): seq<nat> {
    if s == {} then [] else Ascending(s - {MaxOf(s)}) + [MaxOf(s)]
  }

  ghost predicate Increasing(r: seq<nat>) { forall i, j :: 0 <= i < j < |r| ==> r[i] < r[j] }

  lemma {:induction false} AscendingShape(s: set<nat>)
    ensures |Ascending(s)| == |s|
    ensures forall x :: x in Ascending(s) <==> x in s
    ensures Increasing(Ascending(s))
  {
    if s != {} {
      var m := MaxOf(s);
      var r := Ascending(s - {m});
      AscendingShape(s - {m});
      assert forall x :: x in r + [m] <==> x in r || x == m;
      forall i, j | 0 <= i < j < |r + [m]|
        ensures (r + [m])[i] < (r + [m])[j]
      {
        assert r[i] in r;
        assert r[i] in s - {m} && r[i] <= m;
      }
    }
  }

  /** Takes the largest number that is left, until none is. */
  method SortNumbers(s: set<nat>) returns (r: seq<nat>)
    ensures r == Ascending(s)
  {
    r := [];
    var left := s;
    while left != {}
      invariant Ascending(left) + r == Ascending(s)
      decreases left
    {
      var m := Largest(left);
      Assoc(Ascending(left - {m}), [m], r);
      left := left - {m};
      r := [m] + r;
    }
    assert [] + r == r;
  }

  method Largest(s: set<nat>) returns (m: nat)
    requires s != {}
    ensures m == MaxOf(s)
  {
    m :| m in s;
    var others := s - {m};
    while others != {}
      invariant m in s && others <= s && forall x :: x in s && x !in others ==> x <= m
      decreases others
    {
      var x :| x in others;
      if x > m {
        m := x;
      }
      others := others - {x};
    }
    assert MaxOf(s) <= m;
  }

  // ---- Names in order ----

  predicate Sorted(names: seq<string>) { forall i, j :: 0 <= i < j < |names| ==> Before(names[i], names[j]) }

  lemma SortedIsDistinct(names: seq<string>)
    requires Sorted(names)
    ensures forall i, j :: 0 <= i < j < |names| ==> names[i] != names[j]
  {
    forall i, j | 0 <= i < j < |names|
      ensures names[i] != names[j]
    {
      BeforeTotal(names[i], names[j]);
    }
  }

  /** Takes the first name that is left, until none is. */
  method SortNames(s: set<string>) returns (names: seq<string>)
    ensures forall g :: g in names <==> g in s
    ensures Sorted(names)
  {
    hide Before;
    names := [];
    var left := s;
    while left != {}
      invariant left <= s
      invariant forall g :: g in names <==> g in s - left
      invariant forall g, h :: g in names && h in left ==> Before(g, h)
      invariant Sorted(names)
      decreases |left|
    {
      var g := FirstName(left);
      ghost var listed := names;
      names := names + [g];
      left := left - {g};
      assert forall x :: x in names <==> x in listed || x == g;
      assert forall i :: 0 <= i < |listed| ==> listed[i] in listed;
    }
  }

  method FirstName(s: set<string>) returns (m: string)
    requires s != {}
    ensures m in s && forall x :: x in s && x != m ==> Before(m, x)
  {
    hide Before;
    m :| m in s;
    var others := s - {m};
    while others != {}
      invariant m in s && others <= s && forall x :: x in s && x !in others && x != m ==> Before(m, x)
      decreases |others|
    {
      var x :| x in others;
      BeforeTotal(m, x);
      if Before(x, m) {
        forall y | y in s && y !in others && y != m
          ensures Before(x, y)
        {
          BeforeTransitive(x, m, y);
        }
        m := x;
      }
      others := others - {x};
    }
  }

  // ---- Statements ----

  function InsertOrIgnoreMessage(db: Db, id: string, article: Message): Db {
    if id in db.messages then db
    else db.(messages := db.messages[id := Stored(article, Bytes(article.body))])
  }

  /** Fails on the primary key, and on the foreign key to the messages. */
  function InsertRow(db: Db, key: Key, row: Row): Option<Db> {
    if key in db.rows || row.id !in db.messages then None
    else Some(db.(rows := db.rows[key := row]))
  }

  function ReplaceOverview(db: Db, key: Key, line: string): Db { db.(overview := db.overview[key := line]) }

  function DeleteRows(db: Db, gone: set<Key>): Db {
    db.(rows := map k | k in db.rows && k !in gone :: db.rows[k])
  }

  function RowsOfGroup(db: Db, group: string): set<Key> { set k | k in db.rows && k.group == group }

  function RowsOfId(db: Db, id: string): set<Key> { set k | k in db.rows && db.rows[k].id == id }

  function RowsBefore(db: Db, group: string, before: int): set<Key> {
    set k | k in db.rows && k.group == group && db.rows[k].insertedAt < before
  }

  predicate Referenced(db: Db, id: string) { exists k :: k in db.rows && db.rows[k].id == id }

  function DeleteOrphans(db: Db): Db {
    db.(messages := map id | id in db.messages && Referenced(db, id) :: db.messages[id])
  }

  function DeleteMessageIfOrphan(db: Db, id: string): Db {
    if Referenced(db, id) then db else db.(messages := map i | i in db.messages && i != id :: db.messages[i])
  }

  function DeleteGroup(db: Db, group: string): Db {
    db.(groups := map g | g in db.groups && g != group :: db.groups[g])
  }

  // ---- Operations, each as one step ----

  /** One group's share of storing: its next number, the row and the overview line. */
  ghost function StoreInGroup(db: Db, id: string, article: Message, now: int, group: string): Db {
    var key := Key(group, MaxNumber(db.rows, group) + 1);
    db.(rows := db.rows[key := Row(id, now)],
        overview := db.overview[key := OverviewLine(key.number, article, OverviewBytes(db.messages, article))])
  }

  ghost function StoreInGroups(db: Db, id: string, article: Message, now: int, groups: seq<string>): Db
    decreases |groups|
  {
    if groups == [] then db
    else StoreInGroups(StoreInGroup(db, id, article, now, groups[0]), id, article, now, groups[1..])
  }

  ghost function AfterStore(db: Db, article: Message, now: int): Db {
    match ArticleId(article)
    case None => db
    case Some(id) => StoreInGroups(InsertOrIgnoreMessage(db, id, article), id, article, now, Newsgroups(article))
  }

  function WithoutArticle(db: Db, id: string): Db { DeleteMessageIfOrphan(DeleteRows(db, RowsOfId(db, id)), id) }

  function WithoutGroup(db: Db, group: string): Db {
    DeleteOrphans(DeleteGroup(DeleteRows(db, RowsOfGroup(db, group)), group))
  }

  function WithoutGroups(db: Db, names: seq<string>): Db
    decreases |names|
  {
    if names == [] then db else WithoutGroups(WithoutGroup(db, names[0]), names[1..])
  }

  function WithoutOlder(db: Db, group: string, before: int): Db { DeleteRows(db, RowsBefore(db, group, before)) }

  /** Deleting an article takes its rows and its message, and nothing else. */
  lemma WithoutArticleExactly(db: Db, id: string, k: Key, other: string)
    ensures var after := WithoutArticle(db, id);
            (k in after.rows <==> k in db.rows && db.rows[k].id != id) && (k in after.rows ==> after.rows[k] == db.rows[k])
            && (other in after.messages <==> other in db.messages && other != id)
            && (other in after.messages ==> after.messages[other] == db.messages[other])
            && after.groups == db.groups && after.overview == db.overview
  {
    assert !Referenced(DeleteRows(db, RowsOfId(db, id)), id);
  }

  /** Removing groups leaves the rows of the others and, once any is removed, exactly the
      messages those refer to; in whatever order, and the overview is not cleaned up. */
  lemma {:induction false} WithoutGroupsExactly(db: Db, names: seq<string>, k: Key, id: string)
    ensures var after := WithoutGroups(db, names);
            (k in after.rows <==> k in db.rows && k.group !in names) && (k in after.rows ==> after.rows[k] == db.rows[k])
            && (k.group in after.groups <==> k.group in db.groups && k.group !in names)
            && (id in after.messages <==> id in db.messages && (names == [] || RemainsIn(db, names, id)))
            && (id in after.messages ==> after.messages[id] == db.messages[id])
            && after.overview == db.overview
    decreases |names|
  {
    if names != [] {
      var next := WithoutGroup(db, names[0]);
      WithoutGroupsExactly(next, names[1..], k, id);
      assert forall g :: g in names <==> g == names[0] || g in names[1..];
      RemainsOneLess(db, names, id);
    }
  }

  predicate RemainsIn(db: Db, names: seq<string>, id: string) {
    exists k :: k in db.rows && k.group !in names && db.rows[k].id == id
  }

  lemma RemainsOneLess(db: Db, names: seq<string>, id: string)
    requires names != []
    ensures var next := WithoutGroup(db, names[0]);
            id in next.messages && (names[1..] == [] || RemainsIn(next, names[1..], id))
            <==> id in db.messages && RemainsIn(db, names, id)
  {
    var next := WithoutGroup(db, names[0]);
    assert forall g :: g in names <==> g == names[0] || g in names[1..];
    if id in db.messages && RemainsIn(db, names, id) {
      var k :| k in db.rows && k.group !in names && db.rows[k].id == id;
      assert k in next.rows && next.rows[k] == db.rows[k];
      assert RemainsIn(next, names[1..], id);
    }
    if id in next.messages && RemainsIn(next, names[1..], id) {
      var k :| k in next.rows && k.group !in names[1..] && next.rows[k].id == id;
      assert k in db.rows && k.group != names[0];
    }
  }

  /** Every row refers to a stored message: the schema's foreign key. */
  predicate Sound(db: Db) { forall k :: k in db.rows ==> db.rows[k].id in db.messages }

  // ---- Queries ----

  function ArticleAt(db: Db, group: string, number: nat): Option<Message> {
    var key := Key(group, number);
    if number <= I64_MAX && key in db.rows && db.rows[key].id in db.messages
    then Some(db.messages[db.rows[key].id].article) else None
  }

  function IdAt(rows: map<Key, Row>, key: Key): string { if key in rows then rows[key].id else "" }

  /** The messages of a group's rows, by number. */
  function IdsAt(rows: map<Key, Row>, group: string, ns: seq<nat>): (r: seq<string>)
    ensures |r| == |ns| && forall i :: 0 <= i < |ns| ==> r[i] == IdAt(rows, Key(group, ns[i]))
  {
    if ns == [] then [] else [IdAt(rows, Key(group, ns[0]))] + IdsAt(rows, group, ns[1..])
  }

  ghost function IdsInGroup(db: Db, group: string): seq<string> {
    IdsAt(db.rows, group, Ascending(Numbers(db.rows.Keys, group)))
  }

  lemma IdsInGroupExact(db: Db, group: string, id: string)
    ensures id in IdsInGroup(db, group) <==> exists n :: Key(group, n) in db.rows && db.rows[Key(group, n)].id == id
  {
    var ns := Ascending(Numbers(db.rows.Keys, group));
    AscendingShape(Numbers(db.rows.Keys, group));
    if id in IdsInGroup(db, group) {
      var i :| 0 <= i < |ns| && IdsInGroup(db, group)[i] == id;
      assert ns[i] in ns;
      InNumbers(db.rows.Keys, group, ns[i]);
    }
    if n :| Key(group, n) in db.rows && db.rows[Key(group, n)].id == id {
      InNumbers(db.rows.Keys, group, n);
      var i :| 0 <= i < |ns| && ns[i] == n;
      assert IdsInGroup(db, group)[i] == id;
    }
  }

  function LineAt(overview: map<Key, string>, key: Key): string { if key in overview then overview[key] else "" }

  function LinesAt(overview: map<Key, string>, group: string, ns: seq<nat>): (r: seq<string>)
    ensures |r| == |ns| && forall i :: 0 <= i < |ns| ==> r[i] == LineAt(overview, Key(group, ns[i]))
  {
    if ns == [] then [] else [LineAt(overview, Key(group, ns[0]))] + LinesAt(overview, group, ns[1..])
  }

  function Within(s: set<nat>, lo: nat, hi: nat): set<nat> { set n | n in s && lo <= n <= hi }

  lemma ChosenWithin(keys: set<Key>, group: string, lo: nat, hi: nat)
    ensures (set k | k in keys && k.group == group && lo <= k.number <= hi :: k.number)
         == Within(Numbers(keys, group), lo, hi)
    ensures forall n :: n in Within(Numbers(keys, group), lo, hi) ==> Key(group, n) in keys
  {
    forall n | n in Within(Numbers(keys, group), lo, hi)
      ensures Key(group, n) in keys && Key(group, n).number == n
    {
      InNumbers(keys, group, n);
    }
  }

  /** The ids of the group's rows, one for each, by number. */
  ghost predicate InNumberOrder(rows: map<Key, Row>, group: string, ids: seq<string>) {
    exists ns: seq<nat> ::
      |ns| == |ids| && Increasing(ns) && (forall n: nat :: n in ns <==> Key(group, n) in rows)
      && forall i :: 0 <= i < |ns| ==> Key(group, ns[i]) in rows && ids[i] == rows[Key(group, ns[i])].id
  }

  /** The group's lines of the numbers from `lo` to `hi`, by number. */
  ghost predicate LinesInOrder(overview: map<Key, string>, group: string, lo: nat, hi: nat, lines: seq<string>) {
    exists ns: seq<nat> ::
      |ns| == |lines| && Increasing(ns) && (forall n: nat :: n in ns <==> Key(group, n) in overview && lo <= n <= hi)
      && forall i :: 0 <= i < |ns| ==> Key(group, ns[i]) in overview && lines[i] == overview[Key(group, ns[i])]
  }

  lemma OrderedIds(rows: map<Key, Row>, group: string, ns: seq<nat>)
    requires Increasing(ns) && forall n: nat :: n in ns <==> Key(group, n) in rows
    ensures InNumberOrder(rows, group, IdsAt(rows, group, ns))
  {
    hide Increasing;
    assert forall i :: 0 <= i < |ns| ==> ns[i] in ns;
  }

  lemma IdsInOrder(rows: map<Key, Row>, group: string)
    ensures InNumberOrder(rows, group, IdsAt(rows, group, Ascending(Numbers(rows.Keys, group))))
  {
    var ns := Ascending(Numbers(rows.Keys, group));
    AscendingShape(Numbers(rows.Keys, group));
    hide Numbers, Ascending, Increasing, InNumberOrder, IdsAt;
    forall n: nat
      ensures n in ns <==> Key(group, n) in rows
    {
      InNumbers(rows.Keys, group, n);
    }
    OrderedIds(rows, group, ns);
  }

  lemma OrderedLines(overview: map<Key, string>, group: string, lo: nat, hi: nat, ns: seq<nat>)
    requires Increasing(ns) && forall n: nat :: n in ns <==> Key(group, n) in overview && lo <= n <= hi
    ensures LinesInOrder(overview, group, lo, hi, LinesAt(overview, group, ns))
  {
    hide Increasing;
    assert forall i :: 0 <= i < |ns| ==> ns[i] in ns;
  }

  lemma RangeInOrder(overview: map<Key, string>, group: string, lo: nat, hi: nat)
    ensures LinesInOrder(overview, group, lo, hi, LinesAt(overview, group, Ascending(Within(Numbers(overview.Keys, group), lo, hi))))
  {
    var chosen := Within(Numbers(overview.Keys, group), lo, hi);
    var ns := Ascending(chosen);
    AscendingShape(chosen);
    hide Numbers, Ascending, Increasing, LinesInOrder, LinesAt;
    forall n: nat
      ensures n in ns <==> Key(group, n) in overview && lo <= n <= hi
    {
      InNumbers(overview.Keys, group, n);
    }
    OrderedLines(overview, group, lo, hi, ns);
  }

  /** The bounds as the statement binds them: a start beyond i64 becomes 0. */
  function BoundStart(start: nat): nat { if start <= I64_MAX then start else 0 }
  function BoundEnd(end: nat): nat { if end <= I64_MAX then end else I64_MAX }

  ghost function OverviewRange(db: Db, group: string, start: nat, end: nat): seq<string> {
    LinesAt(db.overview, group,
            Ascending(Within(Numbers(db.overview.Keys, group), BoundStart(start), BoundEnd(end))))
  }

  /** Fetching the rows of a listing one by one. */
  method ReadIds(rows: map<Key, Row>, group: string, ns: seq<nat>) returns (ids: seq<string>)
    ensures ids == IdsAt(rows, group, ns)
  {
    ids := [];
    for i := 0 to |ns|
      invariant |ids| == i && forall k :: 0 <= k < i ==> ids[k] == IdAt(rows, Key(group, ns[k]))
    {
      ids := ids + [IdAt(rows, Key(group, ns[i]))];
    }
  }

  method ReadLines(overview: map<Key, string>, group: string, ns: seq<nat>) returns (lines: seq<string>)
    ensures lines == LinesAt(overview, group, ns)
  {
    lines := [];
    for i := 0 to |ns|
      invariant |lines| == i && forall k :: 0 <= k < i ==> lines[k] == LineAt(overview, Key(group, ns[k]))
    {
      lines := lines + [LineAt(overview, Key(group, ns[i]))];
    }
  }

  // ---- A small article ----

  /** An article of one group, without a body. */
  function Sample(id: string): Message { Message([Header("Newsgroups", "g"), Header("Message-ID", id)], "") }

  lemma SampleParts(id: string)
    ensures ArticleId(Sample(id)) == Some(id)
    ensures Newsgroups(Sample(id)) == ["g"]
  {
    var hs := Sample(id).headers;
    assert Lower("Newsgroups")[0] == 'n' && Lower("Message-ID")[0] == 'm';
    assert HeaderValue(hs[1..], "Message-ID") == Some(id);
    assert HeaderValue(hs, "Newsgroups") == Some("g");
    assert IndexOf("g", ',') == 1 && Split("g", ',') == ["g"];
    TrimIsTrimmed("g");
    assert ["g"][1..] == [];
  }

  lemma LineOfStored(messages: map<string, Stored>, article: Message, id: string, number: nat)
    requires id in messages
    ensures TabFree(article) && ArticleId(article) == Some(id) ==>
              Describes(OverviewLine(number, article, OverviewBytes(messages, article)), number, article, messages[id].size)
  {
    hide OverviewLine, Describes, TabFree;
    if TabFree(article) && ArticleId(article) == Some(id) { LineDescribes(number, article, messages[id].size); }
  }

  /** What is listed in a Newsgroups header: its parts between commas, without white space, and
      without the empty ones. */
  lemma {:induction false} PartsTrimmed(parts: seq<string>, names: seq<string>)
    requires |parts| == |names| && forall i :: 0 <= i < |parts| ==> names[i] != "" && Trim(parts[i]) == names[i]
    ensures NonEmptyTrimmed(parts) == names
  {
    if parts != [] { PartsTrimmed(parts[1..], names[1..]); }
  }

  lemma {:induction false} BlankPartDropped(a: seq<string>, blank: string, b: seq<string>)
    requires AllWhitespace(blank)
    ensures NonEmptyTrimmed(a + [blank] + b) == NonEmptyTrimmed(a + b)
  {
    if a == [] {
      assert a + [blank] + b == [blank] + b && a + b == b && ([blank] + b)[1..] == b;
      TrimExactly(blank, "", "");
      assert blank + "" + "" == blank;
    } else {
      assert (a + [blank] + b)[1..] == a[1..] + [blank] + b && (a + b)[1..] == a[1..] + b;
      BlankPartDropped(a[1..], blank, b);
    }
  }

  /** A header that lists names, with commas and any white space between them, is read as them. */
  lemma NewsgroupsListed(article: Message, parts: seq<string>, names: seq<string>)
    requires parts != [] && HeaderValue(article.headers, "Newsgroups") == Some(Joined(parts, ','))
    requires forall part :: part in parts ==> ',' !in part
    requires |parts| == |names| && forall i :: 0 <= i < |parts| ==> names[i] != "" && Trim(parts[i]) == names[i]
    ensures Newsgroups(article) == names
  {
    JoinedSplit(parts, ',');
    PartsTrimmed(parts, names);
  }

  // ---- The store itself ----

  class ArticleStore {
    var messages: map<string, Stored>
    var rows: map<Key, Row>
    var groups: map<string, GroupInfo>
    var overview: map<Key, string>

    ghost function Contents(): Db
      reads this
    {
      Db(messages, rows, groups, overview)
    }

    constructor ()
      ensures Contents() == Db(map[], map[], map[], map[])
    {
      messages, rows, groups, overview := map[], map[], map[], map[];
    }

    /** One more than the highest number, or one. */
    method NextNumber(group: string) returns (next: nat)
      ensures next == MaxNumber(rows, group) + 1
      ensures forall k :: k in rows && k.group == group ==> k.number < next
      ensures next == 1 || Key(group, next - 1) in rows
    {
      var max := 0;
      var keys := rows.Keys;
      while keys != {}
        invariant keys <= rows.Keys
        invariant forall k :: k in rows.Keys && k !in keys && k.group == group ==> k.number <= max
        invariant max == 0 || Key(group, max) in rows
        decreases |keys|
      {
        var k :| k in keys;
        if k.group == group && k.number > max {
          max := k.number;
          assert k == Key(group, max);
        }
        keys := keys - {k};
      }
      ghost var s := Numbers(rows.Keys, group);
      if max > 0 { InNumbers(rows.Keys, group, max); }
      if s != {} {
        InNumbers(rows.Keys, group, MaxOf(s));
        assert Key(group, MaxOf(s)).number <= max;
      }
      next := max + 1;
    }

    method StoreArticle(article: Message, now: int) returns (ok: bool)
      modifies this
      ensures ok <==> ArticleId(article).Some?
      ensures Contents() == AfterStore(old(Contents()), article, now)
      ensures ok ==> forall k :: k in rows && k !in old(rows) ==>
                rows[k] == Row(ArticleId(article).value, now) && rows[k].id in messages && k in overview
                && (TabFree(article) ==> Describes(overview[k], k.number, article, messages[rows[k].id].size))
      ensures forall k :: k in old(rows) ==> k in rows && rows[k] == old(rows)[k]
    {
      var id := ArticleId(article);
      if id.None? {
        return false;
      }
      var msgId := id.value;
      if msgId !in messages {
        messages := messages[msgId := Stored(article, Bytes(article.body))];
      }
      var newsgroups := Newsgroups(article);
      ghost var target := StoreInGroups(Contents(), msgId, article, now, newsgroups);
      assert target == AfterStore(old(Contents()), article, now);
      hide StoreInGroup, Newsgroups, AfterStore, Describes, TabFree, ArticleId;
      for i := 0 to |newsgroups|
        invariant msgId in messages
        invariant forall k :: k in old(rows) ==> k in rows && rows[k] == old(rows)[k]
        invariant forall k :: k in rows && k !in old(rows) ==>
                    rows[k] == Row(msgId, now) && k in overview
                    && (TabFree(article) ==> Describes(overview[k], k.number, article, messages[msgId].size))
        invariant StoreInGroups(Contents(), msgId, article, now, newsgroups[i..]) == target
      {
        assert newsgroups[i..][1..] == newsgroups[i + 1..];
        var stored := AssociateGroup(msgId, article, now, newsgroups[i]);
        if !stored {
          return false;
        }
      }
      ok := true;
    }

    /** The loop body of storing: number, row, overview line; an insert may fail. */
    method AssociateGroup(msgId: string, article: Message, now: int, group: string) returns (ok: bool)
      modifies this
      ensures ok <==> msgId in old(messages)
      ensures Contents() == if ok then StoreInGroup(old(Contents()), msgId, article, now, group) else old(Contents())
      ensures ok ==> exists n: nat :: var k := Key(group, n);
                k !in old(rows) && rows == old(rows)[k := Row(msgId, now)] && k in overview
                && overview == old(overview)[k := overview[k]] && messages == old(messages)
                && (TabFree(article) && ArticleId(article) == Some(msgId) ==>
                      Describes(overview[k], n, article, messages[msgId].size))
    {
      hide OverviewLine, OverviewBytes, Describes, TabFree, ArticleId;
      var next := NextNumber(group);
      var key := Key(group, next);
      AboveMax(rows, group, next);
      if key in rows || msgId !in messages {
        return false;
      }
      hide MaxNumber;
      LineOfStored(messages, article, msgId, next);
      rows := rows[key := Row(msgId, now)];
      overview := overview[key := OverviewLine(next, article, OverviewBytes(messages, article))];
      ok := true;
      assert key == Key(group, next) && key !in old(rows) && overview == old(overview)[key := overview[key]];
    }

    method DeleteArticleById(id: string)
      modifies this
      ensures Contents() == WithoutArticle(old(Contents()), id)
      ensures rows == map k | k in old(rows) && old(rows)[k].id != id :: old(rows)[k]
      ensures messages == map i | i in old(messages) && i != id :: old(messages)[i]
      ensures groups == old(groups) && overview == old(overview)
    {
      ghost var gone := RowsOfId(Contents(), id);
      rows := map k | k in rows && rows[k].id != id :: rows[k];
      assert Contents() == DeleteRows(old(Contents()), gone);
      if !exists k :: k in rows && rows[k].id == id {
        messages := map i | i in messages && i != id :: messages[i];
      }
    }

    method PurgeOrphanMessages()
      modifies this
      ensures Contents() == DeleteOrphans(old(Contents()))
      ensures messages == map id | id in old(messages) && (exists k :: k in old(rows) && old(rows)[k].id == id) :: old(messages)[id]
      ensures rows == old(rows) && groups == old(groups) && overview == old(overview)
    {
      messages := map id | id in messages && (exists k :: k in rows && rows[k].id == id) :: messages[id];
    }

    method RemoveGroup(group: string)
      modifies this
      ensures Contents() == WithoutGroup(old(Contents()), group)
      ensures rows == map k | k in old(rows) && k.group != group :: old(rows)[k]
      ensures groups == map g | g in old(groups) && g != group :: old(groups)[g]
      ensures messages == map id | id in old(messages) && (exists k :: k in rows && rows[k].id == id) :: old(messages)[id]
      ensures overview == old(overview)
    {
      ghost var gone := RowsOfGroup(Contents(), group);
      rows := map k | k in rows && k.group != group :: rows[k];
      assert Contents() == DeleteRows(old(Contents()), gone);
      groups := map g | g in groups && g != group :: groups[g];
      PurgeOrphanMessages();
    }

    method RemoveGroupsByPattern(matches: string -> bool) returns (ghost removed: seq<string>)
      modifies this
      ensures Contents() == WithoutGroups(old(Contents()), removed)
      ensures forall g :: g in removed <==> g in old(groups) && matches(g)
    {
      var names := ListGroups();
      var matching := [];
      for i := 0 to |names|
        invariant forall g :: g in matching <==> g in names[..i] && matches(g)
      {
        if matches(names[i]) {
          matching := matching + [names[i]];
        }
      }
      assert names[..|names|] == names;
      removed := matching;
      for i := 0 to |matching|
        invariant WithoutGroups(Contents(), matching[i..]) == WithoutGroups(old(Contents()), matching)
      {
        assert matching[i..][1..] == matching[i + 1..];
        RemoveGroup(matching[i]);
      }
    }

    method PurgeGroupBefore(group: string, before: int)
      modifies this
      ensures Contents() == WithoutOlder(old(Contents()), group, before)
      ensures rows == map k | k in old(rows) && !(k.group == group && old(rows)[k].insertedAt < before) :: old(rows)[k]
      ensures messages == old(messages) && groups == old(groups) && overview == old(overview)
    {
      ghost var gone := RowsBefore(Contents(), group, before);
      rows := map k | k in rows && !(k.group == group && rows[k].insertedAt < before) :: rows[k];
      assert Contents() == DeleteRows(old(Contents()), gone);
    }

    method AddGroup(group: string, moderated: bool, now: int)
      modifies this
      ensures Contents() == old(Contents()).(groups :=
                if group in old(groups) then old(groups) else old(groups)[group := GroupInfo(now, moderated, "")])
    {
      if group !in groups {
        groups := groups[group := GroupInfo(now, moderated, "")];
      }
    }

    /** The names of all groups, each once and in order. */
    method ListGroups() returns (names: seq<string>)
      ensures forall g :: g in names <==> g in groups
      ensures Sorted(names)
      ensures forall i, j :: 0 <= i < j < |names| ==> names[i] != names[j]
    {
      names := SortNames(groups.Keys);
      SortedIsDistinct(names);
    }

    method ListArticleIds(group: string) returns (ids: seq<string>)
      ensures ids == IdsInGroup(Contents(), group)
      ensures InNumberOrder(rows, group, ids)
    {
      var chosen := set k | k in rows && k.group == group :: k.number;
      assert chosen == Numbers(rows.Keys, group);
      var ns := SortNumbers(chosen);
      ids := ReadIds(rows, group, ns);
      IdsInOrder(rows, group);
    }

    method GetArticleById(id: string) returns (article: Option<Message>)
      ensures article == if id in messages then Some(messages[id].article) else None
    {
      if id in messages {
        return Some(messages[id].article);
      }
      return None;
    }

    method GetOverviewRange(group: string, start: nat, end: nat) returns (lines: seq<string>)
      ensures lines == OverviewRange(Contents(), group, start, end)
      ensures LinesInOrder(overview, group, if start <= I64_MAX then start else 0, if end <= I64_MAX then end else I64_MAX, lines)
    {
      var lo, hi := BoundStart(start), BoundEnd(end);
      var chosen := set k | k in overview && k.group == group && lo <= k.number <= hi :: k.number;
      ChosenWithin(overview.Keys, group, lo, hi);
      hide LinesInOrder, Numbers, Ascending;
      var ns := SortNumbers(chosen);
      lines := ReadLines(overview, group, ns);
      RangeInOrder(overview, group, lo, hi);
    }
  }
}
