/** The order of age while calls interleave: a call reads the clock once, before its loop, so
    that a number can be given out after a higher time has been used. */
module ConcurrentAge {
  import opened Text
  import opened Wire
  import opened Store
  import opened StoreRuns
  import opened StoreConcurrency

  /** Within a group a higher number was never inserted earlier. */
  predicate InOrder(db: Db) {
    forall j, k :: j in db.rows && k in db.rows && j.group == k.group && j.number < k.number ==>
                     db.rows[j].insertedAt <= db.rows[k].insertedAt
  }

  /** A row at `at` under this number would stand against a row that is there. */
  predicate OutOfOrder(db: Db, key: Key, at: int) {
    exists k :: k in db.rows && k.group == key.group
                && ((k.number < key.number && db.rows[k].insertedAt > at)
                    || (k.number > key.number && db.rows[k].insertedAt < at))
  }

  /** An insert that succeeds, of a time that stands against a row of the group. */
  predicate Disorders(s: System, e: Event) {
    e.Work? && e.i < |s.callers|
    && var c := s.callers[e.i];
       c.pc.Insert? && c.groups != [] && InsertRow(s.db, Key(c.groups[0], c.pc.next), Row(c.id, c.now)).Some?
       && OutOfOrder(s.db, Key(c.groups[0], c.pc.next), c.now)
  }

  lemma InsertInOrder(db: Db, key: Key, row: Row)
    requires InOrder(db) && key !in db.rows
    ensures InOrder(db.(rows := db.rows[key := row])) <==> !OutOfOrder(db, key, row.insertedAt)
  {
    var after := db.(rows := db.rows[key := row]);
    if OutOfOrder(db, key, row.insertedAt) {
      var k :| k in db.rows && k.group == key.group
               && ((k.number < key.number && db.rows[k].insertedAt > row.insertedAt)
                   || (k.number > key.number && db.rows[k].insertedAt < row.insertedAt));
      assert after.rows[k] == db.rows[k] && after.rows[key] == row;
    }
  }

  /** For every statement of a caller, new call and deletion: the order is kept exactly when
      the statement is no such insert. */
  lemma InOrderExactly(s: System, e: Event)
    requires InOrder(s.db)
    ensures InOrder(Exec(s, e).db) <==> !Disorders(s, e)
  {
    hide OverviewLine, OverviewBytes, MaxNumber, OutOfOrder;
    if e.Work? && e.i < |s.callers| {
      var c := s.callers[e.i];
      if c.pc.Insert? && c.groups != [] && InsertRow(s.db, Key(c.groups[0], c.pc.next), Row(c.id, c.now)).Some? {
        InsertInOrder(s.db, Key(c.groups[0], c.pc.next), Row(c.id, c.now));
      } else {
        assert Exec(s, e).db.rows == s.db.rows;
      }
    } else if e.Del? {
      RowsOnlyGo(s.db, e.d);
    }
  }

  lemma RowsOnlyGo(db: Db, d: Delete)
    ensures forall k :: k in Deleted(db, d).rows ==> k in db.rows && Deleted(db, d).rows[k] == db.rows[k]
  {
  }

  predicate InOrderAlong(states: seq<Db>) { forall i :: 0 <= i < |states| ==> InOrder(states[i]) }

  /** The tables before, between and after the events of a run. */
  ghost function States(s: System, es: seq<Event>): seq<Db>
    decreases |es|
  {
    [s.db] + if es == [] then [] else States(Exec(s, es[0]), es[1..])
  }

  ghost predicate Disordered(s: System, es: seq<Event>)
    decreases |es|
  {
    es != [] && (Disorders(s, es[0]) || Disordered(Exec(s, es[0]), es[1..]))
  }

  /** Along every run, deletions included, the order holds in every state exactly when no
      insert goes against it. */
  lemma {:induction false} InOrderAlongExactly(s: System, es: seq<Event>)
    requires InOrder(s.db)
    ensures InOrderAlong(States(s, es)) <==> !Disordered(s, es)
    decreases |es|
  {
    hide InOrder, Disorders, Exec;
    if es != [] {
      var next := Exec(s, es[0]);
      var rest := States(next, es[1..]);
      InOrderExactly(s, es[0]);
      assert States(s, es)[1..] == rest && rest[0] == next.db;
      AlongTail(States(s, es));
      if !Disorders(s, es[0]) {
        InOrderAlongExactly(next, es[1..]);
      } else {
        assert !InOrder(rest[0]);
      }
    }
  }

  lemma AlongTail(states: seq<Db>)
    requires states != []
    ensures InOrderAlong(states) <==> InOrder(states[0]) && InOrderAlong(states[1..])
  {
    hide InOrder;
    assert forall i :: 0 < i < |states| ==> states[i] == states[1..][i - 1];
  }

  /** Two calls, begun at the times 1 and 2, of which the second inserts first: the lower number
      has the later time, and a purge between the two takes the higher number alone. */
  lemma SecondInsertsFirst() returns (es: seq<Event>)
    ensures var t := ExecAll(Nothing(), es);
            (forall c :: c in t.callers ==> c.pc.Done?)
            && t.db.rows == map[Key("g", 1) := Row("<b@b>", 2), Key("g", 2) := Row("<a@b>", 1)]
            && !InOrder(t.db) && WithoutOlder(t.db, "g", 2).rows == map[Key("g", 1) := Row("<b@b>", 2)]
  {
    var a, b := Sample("<a@b>"), Sample("<b@b>");
    SampleParts("<a@b>");
    SampleParts("<b@b>");
    hide Sample, Newsgroups, ArticleId, OverviewLine, AfterStore, ExecAll, InOrder, WithoutOlder;
    FirstStore(b, 2, "<b@b>", "g");
    es := OneAfterTheOther(a, b, 1, 2);
    var t := ExecAll(Nothing(), es);
    SecondRow(AfterStore(Empty(), b, 2), a, 1, "<a@b>", "g");
    assert t.db.rows == map[Key("g", 1) := Row("<b@b>", 2), Key("g", 2) := Row("<a@b>", 1)];
    LaterBelow(t.db);
  }

  lemma LaterBelow(db: Db)
    requires db.rows == map[Key("g", 1) := Row("<b@b>", 2), Key("g", 2) := Row("<a@b>", 1)]
    ensures !InOrder(db) && WithoutOlder(db, "g", 2).rows == map[Key("g", 1) := Row("<b@b>", 2)]
  {
    assert db.rows[Key("g", 1)].insertedAt > db.rows[Key("g", 2)].insertedAt;
  }

  /** A store into a group whose only number is 1. */
  lemma SecondRow(db: Db, article: Message, now: int, id: string, g: string)
    requires ArticleId(article) == Some(id) && Newsgroups(article) == [g] && db.rows.Keys == {Key(g, 1)}
    ensures AfterStore(db, article, now).rows == db.rows[Key(g, 2) := Row(id, now)]
  {
    hide ArticleId, Newsgroups, OverviewLine, MaxNumber;
    InNumbers(db.rows.Keys, g, 1);
    OnlyNumber(db, g);
    var db1 := InsertOrIgnoreMessage(db, id, article);
    assert [g][1..] == [];
    assert StoreInGroups(db1, id, article, now, [g]) == StoreInGroup(db1, id, article, now, g);
  }

  lemma OnlyNumber(db: Db, g: string)
    requires db.rows.Keys == {Key(g, 1)}
    ensures MaxNumber(db.rows, g) == 1
  {
    forall n
      ensures n in Numbers(db.rows.Keys, g) <==> n == 1
    {
      InNumbers(db.rows.Keys, g, n);
    }
    assert Numbers(db.rows.Keys, g) == {1};
  }

  /** Two calls that begin in one order and work in the other, each undisturbed. */
  lemma OneAfterTheOther(a: Message, b: Message, first: int, second: int) returns (es: seq<Event>)
    requires ArticleId(a).Some? && ArticleId(b).Some?
    ensures var t := ExecAll(Nothing(), es);
            t.db == AfterStore(AfterStore(Empty(), b, second), a, first) && |t.callers| == 2
            && t.callers[0].pc.Done? && t.callers[1].pc.Done?
  {
    var ca, cb := Call(a, first), Call(b, second);
    var na, nb := 4 * |ca.groups| + 1, 4 * |cb.groups| + 1;
    var begun := [Start(a, first), Start(b, second)];
    AloneIsStore(Empty(), b, second);
    var db1, doneB := AfterStore(Empty(), b, second), Alone(Empty(), cb, nb).1;
    AloneIsStore(db1, a, first);
    var doneA := Alone(db1, ca, na).1;
    TwoBegun(a, b, first, second);
    hide Advance, Alone, AfterStore, Newsgroups, ArticleId, ExecAll, Call;
    es := begun + Turns(1, nb) + Turns(0, na);
    ExecConcat(Nothing(), begun + Turns(1, nb), Turns(0, na));
    ExecConcat(Nothing(), begun, Turns(1, nb));
    TurnsAlone(System(Empty(), [ca, cb]), 1, nb);
    assert [ca, cb][1 := doneB] == [ca, doneB] && [ca, doneB][0 := doneA] == [doneA, doneB];
    TurnsAlone(System(db1, [ca, doneB]), 0, na);
  }

  lemma TwoBegun(a: Message, b: Message, first: int, second: int)
    ensures ExecAll(Nothing(), [Start(a, first), Start(b, second)]) == System(Empty(), [Call(a, first), Call(b, second)])
  {
    hide Call;
    var e, f := Start(a, first), Start(b, second);
    assert [e, f][1..] == [f] && [f][1..] == [];
    var s := Exec(Nothing(), e);
    assert ExecAll(s, [f]) == ExecAll(Exec(s, f), []);
  }
}
