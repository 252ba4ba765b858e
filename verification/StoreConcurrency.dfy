/** Storing as the separate statements that several callers interleave: message,
    then for every group the highest number, the row, the size and the overview line. */
module StoreConcurrency {
  import opened Text
  import opened Wire
  import opened Store
  import opened StoreRuns

  /** The statement a caller executes next. */
  datatype Pc =
    | InsertMessage
    | ReadMax
    | Insert(next: nat)
    | ReadSize(number: nat)
    | WriteOverview(at: nat, bytes: nat)
    | Done
    | Failed

  /** A call of store_article; `groups` are those still to be served. */
  datatype Caller = Caller(id: string, article: Message, now: int, groups: seq<string>, pc: Pc)

  function Call(article: Message, now: int): Caller {
    match ArticleId(article)
    case None => Caller("", article, now, [], Failed)
    case Some(id) => Caller(id, article, now, Newsgroups(article), InsertMessage)
  }

  datatype System = System(db: Db, callers: seq<Caller>)

  function NextGroup(c: Caller, groups: seq<string>): Caller {
    c.(groups := groups, pc := if groups == [] then Done else ReadMax)
  }

  /** One statement of a caller. */
  ghost function Advance(db: Db, c: Caller): (Db, Caller) {
    match c.pc
    case InsertMessage => (InsertOrIgnoreMessage(db, c.id, c.article), NextGroup(c, c.groups))
    case ReadMax => if c.groups == [] then (db, c)
                    else (db, c.(pc := Insert(MaxNumber(db.rows, c.groups[0]) + 1)))
    case Insert(n) => if c.groups == [] then (db, c)
                      else
                        var tried := InsertRow(db, Key(c.groups[0], n), Row(c.id, c.now));
                        if tried.None? then (db, c.(pc := Failed)) else (tried.value, c.(pc := ReadSize(n)))
    case ReadSize(n) => (db, c.(pc := WriteOverview(n, OverviewBytes(db.messages, c.article))))
    case WriteOverview(n, bytes) =>
      if c.groups == [] then (db, c)
      else (ReplaceOverview(db, Key(c.groups[0], n), OverviewLine(n, c.article, bytes)), NextGroup(c, c.groups[1..]))
    case _ => (db, c)
  }

  /** The deleting statements of the other operations. */
  datatype Delete =
    | RowsInGroup(group: string)
    | RowsWithId(id: string)
    | RowsOlder(group: string, before: int)
    | GroupEntry(name: string)
    | Orphans
    | MessageIfOrphan(message: string)

  function Deleted(db: Db, d: Delete): Db {
    match d
    case RowsInGroup(group) => DeleteRows(db, RowsOfGroup(db, group))
    case RowsWithId(id) => DeleteRows(db, RowsOfId(db, id))
    case RowsOlder(group, before) => DeleteRows(db, RowsBefore(db, group, before))
    case GroupEntry(name) => DeleteGroup(db, name)
    case Orphans => DeleteOrphans(db)
    case MessageIfOrphan(id) => DeleteMessageIfOrphan(db, id)
  }

  datatype Event = Start(article: Message, now: int) | Work(i: nat) | Del(d: Delete)

  ghost function Exec(s: System, e: Event): System {
    match e
    case Start(article, now) => s.(callers := s.callers + [Call(article, now)])
    case Work(i) =>
      if i >= |s.callers| then s
      else
        var (db, c) := Advance(s.db, s.callers[i]);
        System(db, s.callers[i := c])
    case Del(d) => s.(db := Deleted(s.db, d))
  }

  ghost function ExecAll(s: System, es: seq<Event>): System
    decreases |es|
  {
    if es == [] then s else ExecAll(Exec(s, es[0]), es[1..])
  }

  /** The empty store, with nobody at work. */
  ghost function Nothing(): System { System(Empty(), []) }

  lemma {:induction false} ExecLast(s: System, es: seq<Event>, e: Event)
    ensures ExecAll(s, es + [e]) == Exec(ExecAll(s, es), e)
    decreases |es|
  {
    hide Exec;
    if es == [] {
      assert [] + [e] == [e] && [e][1..] == [];
      assert ExecAll(Exec(s, e), []) == Exec(s, e);
    } else {
      assert (es + [e])[1..] == es[1..] + [e];
      ExecLast(Exec(s, es[0]), es[1..], e);
    }
  }

  lemma Then(es: seq<Event>, e: Event) returns (more: seq<Event>)
    ensures more == es + [e] && ExecAll(Nothing(), more) == Exec(ExecAll(Nothing(), es), e)
  {
    ExecLast(Nothing(), es, e);
    more := es + [e];
  }

  lemma ExecNone()
    ensures ExecAll(Nothing(), []) == Nothing()
  {
  }

  // ---- Numbering without deletions ----

  /** The group's numbers are exactly 1..m. */
  ghost predicate Contiguous(rows: map<Key, Row>, group: string) {
    forall n: nat :: Key(group, n) in rows <==> 1 <= n <= MaxNumber(rows, group)
  }

  ghost predicate CallerNumbered(db: Db, c: Caller) {
    (c.pc.Insert? ==> c.groups != [] && 1 <= c.pc.next <= MaxNumber(db.rows, c.groups[0]) + 1)
    && (c.pc.ReadMax? || c.pc.Insert? || c.pc.ReadSize? || c.pc.WriteOverview? ==> c.groups != [] && c.id in db.messages)
  }

  ghost predicate Numbered(s: System) {
    (forall g :: Contiguous(s.db.rows, g))
    && forall i :: 0 <= i < |s.callers| ==> CallerNumbered(s.db, s.callers[i])
  }

  lemma ContiguousInsert(rows: map<Key, Row>, g: string, row: Row, h: string)
    requires Contiguous(rows, g) && Contiguous(rows, h)
    ensures Contiguous(rows[Key(g, MaxNumber(rows, g) + 1) := row], h)
  {
    MaxAfterInsert(rows, g, row, h);
  }

  /** A stale number is refused by the primary key and changes nothing; any other insert
      takes exactly the number behind the highest. */
  lemma InsertExactly(db: Db, c: Caller)
    requires (forall g :: Contiguous(db.rows, g)) && CallerNumbered(db, c) && c.pc.Insert?
    ensures var m := MaxNumber(db.rows, c.groups[0]);
            (c.pc.next <= m ==> Advance(db, c) == (db, c.(pc := Failed)))
            && (c.pc.next > m ==>
                  Advance(db, c) == (db.(rows := db.rows[Key(c.groups[0], m + 1) := Row(c.id, c.now)]),
                                     c.(pc := ReadSize(m + 1))))
  {
    var g := c.groups[0];
    assert Contiguous(db.rows, g);
    assert Key(g, c.pc.next) in db.rows <==> 1 <= c.pc.next <= MaxNumber(db.rows, g);
  }

  lemma AdvanceNumbered(db: Db, c: Caller)
    requires (forall g :: Contiguous(db.rows, g)) && CallerNumbered(db, c)
    ensures var (db', c') := Advance(db, c);
            CallerNumbered(db', c')
            && (forall g :: Contiguous(db'.rows, g))
            && (forall g :: MaxNumber(db.rows, g) <= MaxNumber(db'.rows, g))
            && (forall id :: id in db.messages ==> id in db'.messages)
  {
    hide OverviewLine, OverviewBytes, MaxNumber;
    if c.pc.Insert? {
      InsertExactly(db, c);
      if c.pc.next > MaxNumber(db.rows, c.groups[0]) {
        forall g
          ensures Contiguous(Advance(db, c).0.rows, g)
          ensures MaxNumber(db.rows, g) <= MaxNumber(Advance(db, c).0.rows, g)
        {
          ContiguousInsert(db.rows, c.groups[0], Row(c.id, c.now), g);
          MaxAfterInsert(db.rows, c.groups[0], Row(c.id, c.now), g);
        }
      }
    }
  }

  lemma ExecNumbered(s: System, e: Event)
    requires Numbered(s) && !e.Del?
    ensures Numbered(Exec(s, e))
  {
    var t := Exec(s, e);
    if e.Work? && e.i < |s.callers| {
      AdvanceNumbered(s.db, s.callers[e.i]);
      forall i | 0 <= i < |t.callers|
        ensures CallerNumbered(t.db, t.callers[i])
      {
        if i != e.i { assert CallerNumbered(s.db, s.callers[i]) && t.callers[i] == s.callers[i]; }
      }
    } else {
      forall i | 0 <= i < |t.callers|
        ensures CallerNumbered(t.db, t.callers[i])
      {
        if i < |s.callers| { assert t.callers[i] == s.callers[i]; }
      }
    }
  }

  /** Under every interleaving of calls without deletions, each group's numbers stay 1..m. */
  lemma {:induction false} NumberingAlways(s: System, es: seq<Event>, group: string)
    requires Numbered(s) && forall e :: e in es ==> !e.Del?
    ensures Numbered(ExecAll(s, es)) && Contiguous(ExecAll(s, es).db.rows, group)
    decreases |es|
  {
    if es != [] {
      ExecNumbered(s, es[0]);
      NumberingAlways(Exec(s, es[0]), es[1..], group);
    }
  }

  lemma NumberingFromNothing(es: seq<Event>, group: string)
    requires forall e :: e in es ==> !e.Del?
    ensures Contiguous(ExecAll(Nothing(), es).db.rows, group)
  {
    forall g
      ensures Contiguous(Nothing().db.rows, g)
    {
      NoNumbers(Nothing().db.rows, g);
    }
    NumberingAlways(Nothing(), es, group);
  }

  // ---- When a call is refused ----

  /** The statement is an insert into the group that succeeds. */
  ghost predicate Inserts(s: System, e: Event, g: string) {
    e.Work? && e.i < |s.callers|
    && var c := s.callers[e.i];
       c.pc.Insert? && c.groups != [] && c.groups[0] == g && InsertRow(s.db, Key(g, c.pc.next), Row(c.id, c.now)).Some?
  }

  ghost predicate SomeInsert(s: System, es: seq<Event>, g: string)
    decreases |es|
  {
    es != [] && (Inserts(s, es[0], g) || SomeInsert(Exec(s, es[0]), es[1..], g))
  }

  /** Without deletions the highest number grows by one with every insert into the group. */
  lemma ExecMax(s: System, e: Event, g: string)
    requires Numbered(s) && !e.Del?
    ensures MaxNumber(Exec(s, e).db.rows, g) == MaxNumber(s.db.rows, g) + if Inserts(s, e, g) then 1 else 0
  {
    if e.Work? && e.i < |s.callers| {
      var c := s.callers[e.i];
      assert CallerNumbered(s.db, c);
      if c.pc.Insert? {
        InsertExactly(s.db, c);
        AboveMax(s.db.rows, c.groups[0], MaxNumber(s.db.rows, c.groups[0]) + 1);
        MaxAfterInsert(s.db.rows, c.groups[0], Row(c.id, c.now), g);
        InsertedOrNot(s.db, c);
      }
    }
  }

  lemma InsertedOrNot(db: Db, c: Caller)
    requires (forall g :: Contiguous(db.rows, g)) && CallerNumbered(db, c) && c.pc.Insert? && c.id in db.messages
    ensures InsertRow(db, Key(c.groups[0], c.pc.next), Row(c.id, c.now)).Some? <==> c.pc.next == MaxNumber(db.rows, c.groups[0]) + 1
  {
    assert Contiguous(db.rows, c.groups[0]);
  }

  lemma {:induction false} MaxGrows(s: System, es: seq<Event>, g: string)
    requires Numbered(s) && forall e :: e in es ==> !e.Del?
    ensures Numbered(ExecAll(s, es)) && MaxNumber(ExecAll(s, es).db.rows, g) >= MaxNumber(s.db.rows, g)
    ensures MaxNumber(ExecAll(s, es).db.rows, g) > MaxNumber(s.db.rows, g) <==> SomeInsert(s, es, g)
    decreases |es|
  {
    hide MaxNumber, Numbered, Exec, Inserts;
    if es != [] {
      ExecNumbered(s, es[0]);
      ExecMax(s, es[0], g);
      MaxGrows(Exec(s, es[0]), es[1..], g);
    }
  }

  /** A call rests while it has no turn. */
  lemma {:induction false} Rests(s: System, es: seq<Event>, i: nat)
    requires i < |s.callers| && forall e :: e in es ==> e != Work(i)
    ensures i < |ExecAll(s, es).callers| && ExecAll(s, es).callers[i] == s.callers[i]
    decreases |es|
  {
    if es != [] {
      assert es[0] in es && forall e :: e in es[1..] ==> e in es;
      assert i < |Exec(s, es[0]).callers| && Exec(s, es[0]).callers[i] == s.callers[i] by { hide Advance, Deleted; }
      Rests(Exec(s, es[0]), es[1..], i);
    }
  }

  /** Without deletions a call's insert is refused exactly when another call has inserted into
      the group since it read the highest number. */
  lemma RefusedExactly(s: System, i: nat, es: seq<Event>)
    requires Numbered(s) && i < |s.callers| && s.callers[i].pc.ReadMax?
    requires forall e :: e in es ==> !e.Del? && e != Work(i)
    ensures var c, read := s.callers[i], Exec(s, Work(i));
            var t := Exec(ExecAll(read, es), Work(i));
            c.groups != [] && i < |t.callers|
            && (t.callers[i].pc.Failed? <==> SomeInsert(read, es, c.groups[0]))
  {
    var c, read := s.callers[i], Exec(s, Work(i));
    assert CallerNumbered(s.db, c);
    var g := c.groups[0];
    ExecNumbered(s, Work(i));
    assert read.callers[i] == c.(pc := Insert(MaxNumber(s.db.rows, g) + 1)) && read.db == s.db;
    MaxGrows(read, es, g);
    Rests(read, es, i);
    var u := ExecAll(read, es);
    assert CallerNumbered(u.db, u.callers[i]);
    InsertExactly(u.db, u.callers[i]);
  }

  /** Deletions included: it is refused exactly when the number behind the highest it read is
      taken by then, or its message is gone. */
  lemma RefusedWithDeletions(s: System, i: nat, es: seq<Event>)
    requires i < |s.callers| && s.callers[i].pc.ReadMax? && s.callers[i].groups != []
    requires forall e :: e in es ==> e != Work(i)
    ensures var c, u := s.callers[i], ExecAll(Exec(s, Work(i)), es);
            i < |u.callers|
            && (Exec(u, Work(i)).callers[i].pc.Failed? <==>
                Key(c.groups[0], MaxNumber(s.db.rows, c.groups[0]) + 1) in u.db.rows || c.id !in u.db.messages)
  {
    hide MaxNumber;
    var c, read := s.callers[i], Exec(s, Work(i));
    assert read.callers[i] == c.(pc := Insert(MaxNumber(s.db.rows, c.groups[0]) + 1));
    Rests(read, es, i);
  }

  /** The latter comes about: orphaned messages are deleted between a call's first statement
      and its first row. */
  lemma OrphanedCallIsRefused(now: int) returns (es: seq<Event>)
    ensures es == [Start(Sample("<a@b>"), now), Work(0), Del(Orphans), Work(0), Work(0)]
    ensures var t := ExecAll(Nothing(), es);
            |t.callers| == 1 && t.callers[0].pc.Failed? && t.db.rows == map[] && t.db.messages == map[]
  {
    var a := Sample("<a@b>");
    SampleParts("<a@b>");
    NoNumbers(map[], "g");
    hide Sample, Newsgroups, ArticleId, MaxNumber;
    ExecNone();
    es := Then([], Start(a, now));
    es := Then(es, Work(0));
    es := Then(es, Del(Orphans));
    var s := ExecAll(Nothing(), es);
    assert s.db.messages == map[] && s.db.rows == map[] && s.callers == [Call(a, now).(pc := ReadMax)];
    es := Then(es, Work(0));
    assert ExecAll(Nothing(), es).callers == [Call(a, now).(pc := Insert(1))];
    es := Then(es, Work(0));
  }

  // ---- With deletions ----

  /** Whatever is interleaved, a caller's statement keeps every row as it is, and no
      statement leaves a row without its message. */
  lemma RowsSurvive(s: System, e: Event)
    requires Sound(s.db)
    ensures Sound(Exec(s, e).db)
    ensures !e.Del? ==> forall k :: k in s.db.rows ==> k in Exec(s, e).db.rows && Exec(s, e).db.rows[k] == s.db.rows[k]
    ensures e.Del? ==> forall k :: k in Exec(s, e).db.rows ==> k in s.db.rows && Exec(s, e).db.rows[k] == s.db.rows[k]
  {
    if e.Work? && e.i < |s.callers| { AdvanceKeepsRows(s.db, s.callers[e.i]); }
  }

  lemma AdvanceKeepsRows(db: Db, c: Caller)
    requires Sound(db)
    ensures Sound(Advance(db, c).0)
    ensures forall k :: k in db.rows ==> k in Advance(db, c).0.rows && Advance(db, c).0.rows[k] == db.rows[k]
  {
  }

  lemma {:induction false} SoundAlways(s: System, es: seq<Event>)
    requires Sound(s.db)
    ensures Sound(ExecAll(s, es).db)
    decreases |es|
  {
    if es != [] {
      RowsSurvive(s, es[0]);
      SoundAlways(Exec(s, es[0]), es[1..]);
    }
  }

  // ---- A call by itself ----

  ghost function Alone(db: Db, c: Caller, steps: nat): (Db, Caller)
    decreases steps
  {
    if steps == 0 then (db, c) else Alone(Advance(db, c).0, Advance(db, c).1, steps - 1)
  }

  /** The four statements that serve one group, run in a row, are one step of storing. */
  lemma OneGroupAlone(db: Db, c: Caller, rest: nat)
    requires c.pc.ReadMax? && c.groups != [] && c.id in db.messages
    ensures Alone(db, c, rest + 4) ==
            Alone(StoreInGroup(db, c.id, c.article, c.now, c.groups[0]), NextGroup(c, c.groups[1..]), rest)
  {
    hide OverviewLine, OverviewBytes, MaxNumber;
    var g := c.groups[0];
    var n := MaxNumber(db.rows, g) + 1;
    var key := Key(g, n);
    AboveMax(db.rows, g, n);
    var c1 := c.(pc := Insert(n));
    var db2 := db.(rows := db.rows[key := Row(c.id, c.now)]);
    var c2 := c.(pc := ReadSize(n));
    var bytes := OverviewBytes(db.messages, c.article);
    var c3 := c.(pc := WriteOverview(n, bytes));
    assert Advance(db, c) == (db, c1);
    assert Advance(db, c1) == (db2, c2);
    assert Advance(db2, c2) == (db2, c3);
    assert Advance(db2, c3) == (ReplaceOverview(db2, key, OverviewLine(n, c.article, bytes)), NextGroup(c3, c.groups[1..]));
    assert Alone(db, c, rest + 4) == Alone(db, c1, rest + 3);
    assert Alone(db, c1, rest + 3) == Alone(db2, c2, rest + 2);
    assert Alone(db2, c2, rest + 2) == Alone(db2, c3, rest + 1);
  }

  lemma {:induction false} GroupsAlone(db: Db, c: Caller)
    requires c.pc == (if c.groups == [] then Done else ReadMax) && c.id in db.messages
    ensures var (after, end) := Alone(db, c, 4 * |c.groups|);
            after == StoreInGroups(db, c.id, c.article, c.now, c.groups) && end.pc.Done?
    decreases |c.groups|
  {
    hide StoreInGroup, Advance;
    if c.groups != [] {
      var rest := c.groups[1..];
      var next := StoreInGroup(db, c.id, c.article, c.now, c.groups[0]);
      assert next.messages == db.messages by { StoredMessages(db, c); }
      OneGroupAlone(db, c, 4 * |rest|);
      GroupsAlone(next, NextGroup(c, rest));
    }
  }

  lemma StoredMessages(db: Db, c: Caller)
    requires c.groups != []
    ensures StoreInGroup(db, c.id, c.article, c.now, c.groups[0]).messages == db.messages
  {
    hide OverviewLine, OverviewBytes, MaxNumber;
  }

  /** A call that nothing interleaves has the effect of the whole store operation. */
  lemma AloneIsStore(db: Db, article: Message, now: int)
    requires ArticleId(article).Some?
    ensures var c := Call(article, now);
            var (after, end) := Alone(db, c, 4 * |c.groups| + 1);
            after == AfterStore(db, article, now) && end.pc.Done?
  {
    hide Newsgroups, OverviewLine, OverviewBytes;
    var c := Call(article, now);
    var db1 := InsertOrIgnoreMessage(db, c.id, article);
    GroupsAlone(db1, NextGroup(c, c.groups));
  }

  /** A caller whose turn it is for a while. */
  function Turns(i: nat, n: nat): seq<Event> { if n == 0 then [] else [Work(i)] + Turns(i, n - 1) }

  lemma {:induction false} ExecConcat(s: System, a: seq<Event>, b: seq<Event>)
    ensures ExecAll(s, a + b) == ExecAll(ExecAll(s, a), b)
    decreases |a|
  {
    hide Exec;
    if a == [] {
      assert a + b == b;
    } else {
      assert (a + b)[1..] == a[1..] + b;
      ExecConcat(Exec(s, a[0]), a[1..], b);
    }
  }

  /** It is alone for that while. */
  lemma {:induction false} TurnsAlone(s: System, i: nat, n: nat)
    requires i < |s.callers|
    ensures var (after, end) := Alone(s.db, s.callers[i], n); ExecAll(s, Turns(i, n)) == System(after, s.callers[i := end])
    decreases n
  {
    hide Advance;
    if n == 0 {
      assert s.callers[i := s.callers[i]] == s.callers;
    } else {
      var t := Exec(s, Work(i));
      assert Turns(i, n)[1..] == Turns(i, n - 1);
      TurnsAlone(t, i, n - 1);
      var end := Alone(t.db, t.callers[i], n - 1).1;
      assert t.callers[i := end] == s.callers[i := end];
    }
  }
}
