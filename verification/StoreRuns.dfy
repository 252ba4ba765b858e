/** What every run of whole store operations keeps: the overview cache agrees
    with the live articles, and numbers are in order of age. */
module StoreRuns {
  import opened Text
  import opened Wire
  import opened Store

  datatype Op =
    | StoreOp(article: Message, now: int)
    | DeleteOp(id: string)
    | RemoveOp(names: seq<string>)
    | PurgeOp(group: string, before: int)
    | PurgeOrphansOp
    | AddGroupOp(name: string, info: GroupInfo)

  ghost function Apply(db: Db, op: Op): Db {
    match op
    case StoreOp(article, now) => AfterStore(db, article, now)
    case DeleteOp(id) => WithoutArticle(db, id)
    case RemoveOp(names) => WithoutGroups(db, names)
    case PurgeOp(group, before) => WithoutOlder(db, group, before)
    case PurgeOrphansOp => DeleteOrphans(db)
    case AddGroupOp(name, info) => if name in db.groups then db else db.(groups := db.groups[name := info])
  }

  ghost function RunOps(db: Db, ops: seq<Op>): Db
    decreases |ops|
  {
    if ops == [] then db else RunOps(Apply(db, ops[0]), ops[1..])
  }

  // ---- Storing, in closed form ----

  function Times(groups: seq<string>, g: string): nat {
    if groups == [] then 0 else (if groups[0] == g then 1 else 0) + Times(groups[1..], g)
  }

  /** The numbers a store adds: those right above each group's highest, one for every listing. */
  ghost predicate NewKey(db: Db, groups: seq<string>, k: Key) {
    MaxNumber(db.rows, k.group) < k.number <= MaxNumber(db.rows, k.group) + Times(groups, k.group)
  }

  lemma MaxAfterInsert(rows: map<Key, Row>, g: string, row: Row, h: string)
    ensures MaxNumber(rows[Key(g, MaxNumber(rows, g) + 1) := row], h)
         == MaxNumber(rows, h) + if h == g then 1 else 0
  {
    var key := Key(g, MaxNumber(rows, g) + 1);
    var after := rows[key := row];
    InNumbers(after.Keys, g, key.number);
    forall n
      ensures n in Numbers(after.Keys, h) <==> n in Numbers(rows.Keys, h) || (h == g && n == key.number)
    {
      InNumbers(after.Keys, h, n);
      InNumbers(rows.Keys, h, n);
    }
    assert Numbers(after.Keys, h) == Numbers(rows.Keys, h) + if h == g then {key.number} else {};
  }

  /** What a store leaves at one key. */
  ghost predicate StoredAt(db: Db, after: Db, id: string, article: Message, now: int, groups: seq<string>, k: Key) {
    if NewKey(db, groups, k) then
      k in after.rows && after.rows[k] == Row(id, now)
      && k in after.overview && after.overview[k] == OverviewLine(k.number, article, OverviewBytes(db.messages, article))
    else
      (k in after.rows <==> k in db.rows) && (k in db.rows ==> after.rows[k] == db.rows[k])
      && (k in after.overview <==> k in db.overview) && (k in db.overview ==> after.overview[k] == db.overview[k])
  }

  lemma {:induction false} StoreInGroupsAt(db: Db, id: string, article: Message, now: int, groups: seq<string>, k: Key)
    ensures var after := StoreInGroups(db, id, article, now, groups);
            after.messages == db.messages && after.groups == db.groups
            && StoredAt(db, after, id, article, now, groups, k)
    decreases |groups|
  {
    hide OverviewLine, OverviewBytes, MaxNumber;
    if groups != [] {
      var next := StoreInGroup(db, id, article, now, groups[0]);
      StoreInGroupsAt(next, id, article, now, groups[1..], k);
      MaxAfterInsert(db.rows, groups[0], Row(id, now), k.group);
    }
  }

  /** Storing adds exactly the new keys, with one row and one line each, and touches nothing else. */
  lemma StoreClosedForm(db: Db, article: Message, now: int, id: string)
    requires ArticleId(article) == Some(id)
    ensures var db1 := InsertOrIgnoreMessage(db, id, article);
            var after := AfterStore(db, article, now);
            after.messages == db1.messages && after.groups == db.groups
            && forall k :: StoredAt(db1, after, id, article, now, Newsgroups(article), k)
  {
    var db1 := InsertOrIgnoreMessage(db, id, article);
    forall k
      ensures StoredAt(db1, AfterStore(db, article, now), id, article, now, Newsgroups(article), k)
    {
      StoreInGroupsAt(db1, id, article, now, Newsgroups(article), k);
    }
    StoreInGroupsAt(db1, id, article, now, Newsgroups(article), Key("", 0));
  }

  /** No store overwrites a row: the new numbers were free. */
  lemma NewKeysAreFree(db: Db, groups: seq<string>, k: Key)
    requires NewKey(db, groups, k)
    ensures k !in db.rows
  {
    AboveMax(db.rows, k.group, k.number);
  }

  // ---- The overview cache ----

  /** The cached line is the one that OVER would generate. */
  ghost predicate CachedAt(db: Db, k: Key)
    requires k in db.rows && db.rows[k].id in db.messages
  {
    var article := db.messages[db.rows[k].id].article;
    k in db.overview && db.overview[k] == OverviewLine(k.number, article, OverviewBytes(db.messages, article))
  }

  predicate Keyed(db: Db) {
    forall id :: id in db.messages ==> ArticleId(db.messages[id].article) == Some(id)
  }

  ghost predicate Agreement(db: Db) {
    Sound(db) && Keyed(db) && forall k :: k in db.rows ==> CachedAt(db, k)
  }

  /** A store brings no second article under a Message-ID that is still stored. */
  predicate Consistent(db: Db, op: Op) {
    op.StoreOp? ==>
      var id := ArticleId(op.article);
      id.Some? && id.value in db.messages ==> db.messages[id.value].article == op.article
  }

  ghost predicate ConsistentRun(db: Db, ops: seq<Op>)
    decreases |ops|
  {
    ops == [] || (Consistent(db, ops[0]) && ConsistentRun(Apply(db, ops[0]), ops[1..]))
  }

  /** `after` has some of the rows of `db`, and at least the messages they refer to. */
  ghost predicate Shrunk(db: Db, after: Db) {
    after.overview == db.overview
    && (forall k :: k in after.rows ==> k in db.rows && after.rows[k] == db.rows[k])
    && (forall id :: id in after.messages ==> id in db.messages && after.messages[id] == db.messages[id])
    && (forall k :: k in after.rows && after.rows[k].id in db.messages ==> after.rows[k].id in after.messages)
  }

  lemma ShrinkKeepsAgreement(db: Db, after: Db)
    requires Agreement(db) && Shrunk(db, after)
    ensures Agreement(after)
  {
    forall k | k in after.rows
      ensures CachedAt(after, k)
    {
      assert CachedAt(db, k);
      var id := db.rows[k].id;
      assert ArticleId(db.messages[id].article) == Some(id);
    }
  }

  lemma DeletesShrink(db: Db, id: string, name: string, before: int)
    ensures Shrunk(db, WithoutArticle(db, id))
    ensures Shrunk(db, WithoutGroup(db, name))
    ensures Shrunk(db, WithoutOlder(db, name, before))
    ensures Shrunk(db, DeleteOrphans(db))
  {
  }

  lemma {:induction false} RemovalsShrink(db: Db, names: seq<string>)
    ensures Shrunk(db, WithoutGroups(db, names))
    decreases |names|
  {
    if names != [] {
      DeletesShrink(db, "", names[0], 0);
      RemovalsShrink(WithoutGroup(db, names[0]), names[1..]);
    }
  }

  /** Storing keeps the cache in agreement exactly when it adds no row, or the id is new,
      or the article stored under it has the same overview fields. */
  lemma StoreAgreesExactly(db: Db, article: Message, now: int, id: string)
    requires Agreement(db) && ArticleId(article) == Some(id)
    ensures Agreement(AfterStore(db, article, now)) <==>
            (Newsgroups(article) == [] || id !in db.messages || SameFields(db, article, id))
  {
    assert Keyed(db);
    hide AfterStore, Agreement, SameFields, Newsgroups;
    var db1 := InsertOrIgnoreMessage(db, id, article);
    var groups := Newsgroups(article);
    SameFieldsAfterInsert(db, article, id);
    AgreementAfterStore(db, article, now, id);
    StoreClosedForm(db, article, now, id);
    if groups != [] {
      var k := Key(groups[0], MaxNumber(db1.rows, groups[0]) + 1);
      assert NewKey(db1, groups, k);
      assert StoredAt(db1, AfterStore(db, article, now), id, article, now, groups, k);
    }
  }

  lemma AgreementAfterStore(db: Db, article: Message, now: int, id: string)
    requires Agreement(db) && ArticleId(article) == Some(id)
    ensures var db1 := InsertOrIgnoreMessage(db, id, article);
            var after := AfterStore(db, article, now);
            Agreement(after) <==>
            forall k :: k in after.rows && NewKey(db1, Newsgroups(article), k) ==> SameFields(db1, article, id)
  {
    var db1 := InsertOrIgnoreMessage(db, id, article);
    var after := AfterStore(db, article, now);
    SameFieldsAfterInsert(db, article, id);
    StoreInGroupsAt(db1, id, article, now, Newsgroups(article), Key("", 0));
    assert after.messages == db1.messages && Keyed(after);
    hide CachedAt, SameFields, Newsgroups, AfterStore, NewKey, StoreInGroups, InsertOrIgnoreMessage, Keyed;
    forall k | k in after.rows
      ensures after.rows[k].id in after.messages
      ensures CachedAt(after, k) <==> (NewKey(db1, Newsgroups(article), k) ==> SameFields(db1, article, id))
    {
      CachedAfterStore(db, article, now, id, k);
    }
  }

  predicate SameFields(db1: Db, article: Message, id: string)
    requires id in db1.messages
  {
    var stored := db1.messages[id];
    OverviewFields(article, stored.size) == OverviewFields(stored.article, stored.size)
  }

  lemma SameFieldsAfterInsert(db: Db, article: Message, id: string)
    requires Keyed(db) && ArticleId(article) == Some(id)
    ensures var db1 := InsertOrIgnoreMessage(db, id, article);
            Keyed(db1) && (SameFields(db1, article, id) <==> id !in db.messages || SameFields(db, article, id))
  {
  }

  lemma CachedAfterStore(db: Db, article: Message, now: int, id: string, k: Key)
    requires Agreement(db) && ArticleId(article) == Some(id) && k in AfterStore(db, article, now).rows
    ensures var db1 := InsertOrIgnoreMessage(db, id, article);
            var after := AfterStore(db, article, now);
            after.rows[k].id in after.messages
            && (CachedAt(after, k) <==> (NewKey(db1, Newsgroups(article), k) ==> SameFields(db1, article, id)))
  {
    var db1 := InsertOrIgnoreMessage(db, id, article);
    var after := AfterStore(db, article, now);
    hide CachedAt, SameFields, OverviewLine, OverviewBytes, Newsgroups, NewKey, Keyed;
    StoreInGroupsAt(db1, id, article, now, Newsgroups(article), k);
    if NewKey(db1, Newsgroups(article), k) {
      NewCached(db, db1, after, article, id, k);
    } else {
      OldStaysCached(db, db1, k);
      SameCached(db1, after, k);
    }
  }

  lemma NewCached(db: Db, db1: Db, after: Db, article: Message, id: string, k: Key)
    requires Agreement(db) && ArticleId(article) == Some(id) && db1 == InsertOrIgnoreMessage(db, id, article)
    requires after.messages == db1.messages && k in after.rows && after.rows[k].id == id && k in after.overview
    requires after.overview[k] == OverviewLine(k.number, article, OverviewBytes(db1.messages, article))
    ensures CachedAt(after, k) <==> SameFields(db1, article, id)
  {
    var stored := db1.messages[id];
    SameLine(k.number, article, stored.size, stored.article, stored.size);
  }

  lemma SameCached(db1: Db, after: Db, k: Key)
    requires k in db1.rows && k in after.rows && after.rows[k] == db1.rows[k] && db1.rows[k].id in db1.messages
    requires after.messages == db1.messages && (k in after.overview <==> k in db1.overview)
    requires k in db1.overview ==> after.overview[k] == db1.overview[k]
    ensures CachedAt(after, k) <==> CachedAt(db1, k)
  {
  }

  lemma OldStaysCached(db: Db, db1: Db, k: Key)
    requires Agreement(db) && k in db.rows && db1.rows == db.rows && db1.overview == db.overview
    requires forall id :: id in db.messages ==> id in db1.messages && db1.messages[id] == db.messages[id]
    ensures CachedAt(db1, k)
  {
    assert CachedAt(db, k);
    assert ArticleId(db.messages[db.rows[k].id].article) == Some(db.rows[k].id);
  }

  lemma SameLine(n: nat, a: Message, aBytes: nat, b: Message, bBytes: nat)
    ensures OverviewLine(n, a, aBytes) == OverviewLine(n, b, bBytes) <==> OverviewFields(a, aBytes) == OverviewFields(b, bBytes)
  {
    var x, y := OverviewFields(a, aBytes), OverviewFields(b, bBytes);
    hide OverviewFields;
    var p := Decimal(n);
    assert x == ("\t" + x)[1..] && y == ("\t" + y)[1..];
    assert "\t" + x == (p + ("\t" + x))[|p|..] && "\t" + y == (p + ("\t" + y))[|p|..];
  }

  lemma ApplyKeepsAgreement(db: Db, op: Op)
    requires Agreement(db) && Consistent(db, op)
    ensures Agreement(Apply(db, op))
  {
    match op {
      case StoreOp(article, now) =>
        if ArticleId(article).Some? { StoreAgreesExactly(db, article, now, ArticleId(article).value); }
      case DeleteOp(id) =>
        DeletesShrink(db, id, "", 0);
        ShrinkKeepsAgreement(db, Apply(db, op));
      case RemoveOp(names) =>
        RemovalsShrink(db, names);
        ShrinkKeepsAgreement(db, Apply(db, op));
      case PurgeOp(group, before) =>
        DeletesShrink(db, "", group, before);
        ShrinkKeepsAgreement(db, Apply(db, op));
      case PurgeOrphansOp =>
        DeletesShrink(db, "", "", 0);
        ShrinkKeepsAgreement(db, Apply(db, op));
      case AddGroupOp(name, info) =>
        assert Shrunk(db, Apply(db, op));
        ShrinkKeepsAgreement(db, Apply(db, op));
    }
  }

  lemma {:induction false} AgreementAlways(db: Db, ops: seq<Op>)
    requires Agreement(db) && ConsistentRun(db, ops)
    ensures Agreement(RunOps(db, ops))
    decreases |ops|
  {
    if ops != [] {
      ApplyKeepsAgreement(db, ops[0]);
      AgreementAlways(Apply(db, ops[0]), ops[1..]);
    }
  }

  /** The empty store. */
  function Empty(): Db { Db(map[], map[], map[], map[]) }

  lemma AgreementFromNothing(ops: seq<Op>)
    requires ConsistentRun(Empty(), ops)
    ensures Agreement(RunOps(Empty(), ops))
  {
    AgreementAlways(Empty(), ops);
  }

  // ---- OVER from the cache ----

  /** The line OVER generates for a number. */
  function OverLine(db: Db, group: string, n: nat): string {
    match ArticleAt(db, group, n)
    case None => ""
    case Some(article) => OverviewLine(n, article, OverviewBytes(db.messages, article))
  }

  function OverLines(db: Db, group: string, ns: seq<nat>): (r: seq<string>)
    ensures |r| == |ns| && forall i :: 0 <= i < |ns| ==> r[i] == OverLine(db, group, ns[i])
  {
    seq(|ns|, i requires 0 <= i < |ns| => OverLine(db, group, ns[i]))
  }

  ghost function LiveIn(db: Db, group: string, start: nat, end: nat): set<nat> {
    Within(Numbers(db.rows.Keys, group), BoundStart(start), BoundEnd(end))
  }

  ghost function CachedIn(db: Db, group: string, start: nat, end: nat): set<nat> {
    Within(Numbers(db.overview.Keys, group), BoundStart(start), BoundEnd(end))
  }

  /** The cached lines of live numbers are the lines OVER generates, and the whole cached
      range is exactly when no deleted number in it has left a line behind. */
  lemma OverFromCache(db: Db, group: string, start: nat, end: nat)
    requires Agreement(db)
    ensures var live := Ascending(LiveIn(db, group, start, end));
            LinesAt(db.overview, group, live) == OverLines(db, group, live)
            && (OverviewRange(db, group, start, end) == OverLines(db, group, live)
                <==> CachedIn(db, group, start, end) == LiveIn(db, group, start, end))
  {
    var s, c := LiveIn(db, group, start, end), CachedIn(db, group, start, end);
    var live := Ascending(s);
    hide OverviewLine, OverviewBytes, Ascending, Numbers;
    AscendingShape(s);
    AscendingShape(c);
    LiveIsCached(db, group, start, end);
    forall i | 0 <= i < |live|
      ensures LinesAt(db.overview, group, live)[i] == OverLines(db, group, live)[i]
    {
      assert live[i] in live;
      InNumbers(db.rows.Keys, group, live[i]);
      assert CachedAt(db, Key(group, live[i]));
    }
    assert LinesAt(db.overview, group, live) == OverLines(db, group, live);
    if c != s { SubsetCount(s, c); }
  }

  /** The first store there is. */
  lemma FirstStore(article: Message, now: int, id: string, g: string)
    requires ArticleId(article) == Some(id) && Newsgroups(article) == [g]
    ensures AfterStore(Empty(), article, now)
         == Db(map[id := Stored(article, Bytes(article.body))], map[Key(g, 1) := Row(id, now)], map[],
               map[Key(g, 1) := OverviewLine(1, article, Bytes(article.body))])
  {
    hide ArticleId, Newsgroups, OverviewLine, MaxNumber;
    NoNumbers(map[], g);
    var db1 := InsertOrIgnoreMessage(Empty(), id, article);
    assert db1.rows == map[];
    assert [g][1..] == [];
    assert StoreInGroups(db1, id, article, now, [g]) == StoreInGroup(db1, id, article, now, g);
  }

  lemma SingleRange(db: Db, g: string)
    requires db.overview.Keys == {Key(g, 1)}
    ensures OverviewRange(db, g, 1, 1) == [db.overview[Key(g, 1)]]
  {
    var s := CachedIn(db, g, 1, 1);
    forall n
      ensures n in s <==> n == 1
    {
      InNumbers(db.overview.Keys, g, n);
    }
    assert s == {1};
    AscendingShape(s);
    var ns := Ascending(s);
    assert ns[0] in ns;
    assert ns == [1];
  }

  /** Such a line is left by storing an article and deleting it: the number is no longer live
      and its cached line is still handed out. */
  lemma DeletedLineStays(now: int)
    ensures var db := RunOps(Empty(), [StoreOp(Sample("<a@b>"), now), DeleteOp("<a@b>")]);
            Agreement(db) && db.rows == map[]
            && OverviewRange(db, "g", 1, 1) == [OverviewLine(1, Sample("<a@b>"), 0)]
            && OverLines(db, "g", Ascending(LiveIn(db, "g", 1, 1))) == []
  {
    var a, id := Sample("<a@b>"), "<a@b>";
    var s, d := StoreOp(a, now), DeleteOp(id);
    SampleParts(id);
    FirstStore(a, now, id, "g");
    hide ArticleId, Newsgroups, OverviewLine, MaxNumber, AfterStore, Sample, Ascending, Numbers, OverviewRange, Bytes;
    var db1 := Apply(Empty(), s);
    var db := Apply(db1, d);
    assert [s, d][1..] == [d] && [d][1..] == [];
    assert RunOps(Empty(), [s, d]) == RunOps(db1, [d]) == db;
    AgreementFromNothing([s, d]);
    assert db.rows == map[] && db.overview == db1.overview;
    SingleRange(db, "g");
    forall n
      ensures n !in LiveIn(db, "g", 1, 1)
    {
      InNumbers(db.rows.Keys, "g", n);
    }
    AscendingShape(LiveIn(db, "g", 1, 1));
    SampleBytes(id);
  }

  lemma SampleBytes(id: string)
    ensures Bytes(Sample(id).body) == 0
  {
  }

  lemma LiveIsCached(db: Db, group: string, start: nat, end: nat)
    requires Agreement(db)
    ensures LiveIn(db, group, start, end) <= CachedIn(db, group, start, end)
  {
    forall n | n in LiveIn(db, group, start, end)
      ensures n in CachedIn(db, group, start, end)
    {
      InNumbers(db.rows.Keys, group, n);
      InNumbers(db.overview.Keys, group, n);
      assert CachedAt(db, Key(group, n));
    }
  }

  lemma SubsetCount(s: set<nat>, c: set<nat>)
    requires s <= c && s != c
    ensures |s| < |c|
  {
    var x :| x in c && x !in s;
    assert s <= c - {x};
    SubsetAtMost(s, c - {x});
  }

  lemma {:induction false} SubsetAtMost(s: set<nat>, c: set<nat>)
    requires s <= c
    ensures |s| <= |c|
  {
    if s != {} {
      var x :| x in s;
      SubsetAtMost(s - {x}, c - {x});
    }
  }

  // ---- Age ----

  /** Within a group a higher number was never inserted earlier, and nothing after `clock`. */
  ghost predicate Aged(db: Db, clock: int) {
    (forall k :: k in db.rows ==> db.rows[k].insertedAt <= clock)
    && forall j, k :: j in db.rows && k in db.rows && j.group == k.group && j.number < k.number ==>
         db.rows[j].insertedAt <= db.rows[k].insertedAt
  }

  function ClockAfter(clock: int, op: Op): int { if op.StoreOp? then op.now else clock }

  ghost predicate TimedRun(clock: int, ops: seq<Op>)
    decreases |ops|
  {
    ops == [] || (ClockAfter(clock, ops[0]) >= clock && TimedRun(ClockAfter(clock, ops[0]), ops[1..]))
  }

  function LastClock(clock: int, ops: seq<Op>): int
    decreases |ops|
  {
    if ops == [] then clock else LastClock(ClockAfter(clock, ops[0]), ops[1..])
  }

  lemma StoreKeepsAge(db: Db, article: Message, now: int, id: string, clock: int)
    requires Aged(db, clock) && now >= clock && ArticleId(article) == Some(id)
    ensures Aged(AfterStore(db, article, now), now)
  {
    var groups := Newsgroups(article);
    var db1, after := InsertOrIgnoreMessage(db, id, article), AfterStore(db, article, now);
    StoreClosedForm(db, article, now, id);
    forall k | k in after.rows
      ensures if NewKey(db1, groups, k) then after.rows[k].insertedAt == now
              else k in db.rows && after.rows[k] == db.rows[k]
    {
      assert StoredAt(db1, after, id, article, now, groups, k);
    }
    forall j, k | j in after.rows && k in after.rows && j.group == k.group && j.number < k.number
      ensures after.rows[j].insertedAt <= after.rows[k].insertedAt
    {
      if NewKey(db1, groups, j) && !NewKey(db1, groups, k) {
        InNumbers(db1.rows.Keys, k.group, k.number);
      }
    }
  }

  lemma ApplyKeepsAge(db: Db, op: Op, clock: int)
    requires Aged(db, clock) && ClockAfter(clock, op) >= clock
    ensures Aged(Apply(db, op), ClockAfter(clock, op))
  {
    match op {
      case StoreOp(article, now) =>
        if ArticleId(article).Some? { StoreKeepsAge(db, article, now, ArticleId(article).value, clock); }
      case RemoveOp(names) => RemovalsShrink(db, names);
      case DeleteOp(id) => DeletesShrink(db, id, "", 0);
      case PurgeOp(group, before) => DeletesShrink(db, "", group, before);
      case _ =>
    }
  }

  lemma {:induction false} AgedAlways(db: Db, ops: seq<Op>, clock: int)
    requires Aged(db, clock) && TimedRun(clock, ops)
    ensures Aged(RunOps(db, ops), LastClock(clock, ops))
    decreases |ops|
  {
    if ops != [] {
      ApplyKeepsAge(db, ops[0], clock);
      AgedAlways(Apply(db, ops[0]), ops[1..], ClockAfter(clock, ops[0]));
    }
  }

  /** So purging by age takes away the lowest numbers of the group and no other row. */
  lemma PurgeTakesPrefix(db: Db, clock: int, group: string, before: int, j: Key, k: Key)
    requires Aged(db, clock) && j in db.rows && k in db.rows && j.group == k.group
    requires j in WithoutOlder(db, group, before).rows && k !in WithoutOlder(db, group, before).rows
    ensures k.group == group && k.number < j.number
  {
  }

  /** The low mark of a group that keeps an article never falls. */
  lemma LowMarkRises(db: Db, op: Op, group: string, n: nat)
    requires Key(group, n) in Apply(db, op).rows && Numbers(db.rows.Keys, group) != {}
    ensures exists m: nat :: m <= n && Key(group, m) in db.rows
  {
    if op.StoreOp? && ArticleId(op.article).Some? && Key(group, n) !in db.rows {
      var id := ArticleId(op.article).value;
      var db1 := InsertOrIgnoreMessage(db, id, op.article);
      StoreClosedForm(db, op.article, op.now, id);
      assert StoredAt(db1, Apply(db, op), id, op.article, op.now, Newsgroups(op.article), Key(group, n));
      var m := MaxNumber(db.rows, group);
      InNumbers(db.rows.Keys, group, m);
      assert NewKey(db1, Newsgroups(op.article), Key(group, n));
    } else if op.RemoveOp? {
      RemovalsShrink(db, op.names);
    }
  }
}
