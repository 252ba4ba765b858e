/** Offers whose check and whose storing are apart: an id is looked up, and only later does the
    first statement of the store put it there (src/handlers/streaming.rs, src/queue.rs). */
module IntakeRace {
  import opened Text
  import opened Wire
  import opened Store
  import opened StoreRuns
  import opened StoreConcurrency
  import opened Intake

  /** A handler's or a worker's look-up, which begins a call when the id is not stored; or one
      statement of a call. */
  datatype Step = Offer(offered: string, article: Message, now: int) | Continue(i: nat)

  predicate LetsPass(db: Db, offered: string) { offered !in db.messages }

  ghost function Take(s: System, step: Step): System {
    match step
    case Offer(offered, article, now) => if LetsPass(s.db, offered) then StoreConcurrency.Exec(s, Start(article, now)) else s
    case Continue(i) => StoreConcurrency.Exec(s, Work(i))
  }

  ghost function TakeAll(s: System, steps: seq<Step>): System
    decreases |steps|
  {
    if steps == [] then s else TakeAll(Take(s, steps[0]), steps[1..])
  }

  // ---- Rows and the calls that inserted them ----

  predicate Mine(c: Caller, id: string) { ArticleId(c.article) == Some(id) }

  /** How many of its rows in the group a call has inserted. */
  function Inserted(c: Caller, group: string): int {
    Times(Newsgroups(c.article), group) - Times(c.groups, group)
    + if c.groups != [] && c.groups[0] == group && (c.pc.ReadSize? || c.pc.WriteOverview?) then 1 else 0
  }

  function InsertedBy(callers: seq<Caller>, id: string, group: string): int {
    if callers == [] then 0
    else InsertedBy(callers[..|callers| - 1], id, group)
         + if Mine(callers[|callers| - 1], id) then Inserted(callers[|callers| - 1], group) else 0
  }

  /** `rest` is what is left of the listing. */
  predicate Behind(rest: seq<string>, groups: seq<string>) {
    |rest| <= |groups| && rest == groups[|groups| - |rest|..]
  }

  predicate Orderly(c: Caller) {
    (ArticleId(c.article).None? ==> c.pc.Failed?) && (ArticleId(c.article).Some? ==> c.id == ArticleId(c.article).value)
    && (c.pc.ReadMax? || c.pc.Insert? || c.pc.ReadSize? || c.pc.WriteOverview? ==> c.groups != [])
    && (c.pc.InsertMessage? ==> c.groups == Newsgroups(c.article)) && (c.pc.Done? ==> c.groups == [])
    && (ArticleId(c.article).Some? ==> Behind(c.groups, Newsgroups(c.article)) && (c.pc.Failed? ==> c.groups != []))
  }

  ghost predicate Counted(s: System, id: string, group: string) {
    |RowsFor(s.db.rows, group, id)| == InsertedBy(s.callers, id, group)
  }

  /** A message is stored exactly when a call of its id has executed its first statement. */
  ghost predicate Told(s: System, id: string) {
    id in s.db.messages <==> exists i :: 0 <= i < |s.callers| && Mine(s.callers[i], id) && !s.callers[i].pc.InsertMessage?
  }

  ghost predicate Racing(s: System) {
    (forall i :: 0 <= i < |s.callers| ==> Orderly(s.callers[i]))
    && (forall id, g :: Counted(s, id, g)) && (forall id :: Told(s, id))
  }

  lemma {:induction false} InsertedChange(callers: seq<Caller>, i: nat, c: Caller, id: string, group: string)
    requires i < |callers|
    ensures InsertedBy(callers[i := c], id, group)
         == InsertedBy(callers, id, group)
            - (if Mine(callers[i], id) then Inserted(callers[i], group) else 0)
            + (if Mine(c, id) then Inserted(c, group) else 0)
  {
    hide Inserted, Mine;
    var last := |callers| - 1;
    if i == last {
      assert callers[i := c][..last] == callers[..last];
    } else {
      assert callers[i := c][..last] == callers[..last][i := c];
      InsertedChange(callers[..last], i, c, id, group);
    }
  }

  lemma BehindTail(rest: seq<string>, groups: seq<string>)
    requires Behind(rest, groups) && rest != []
    ensures Behind(rest[1..], groups)
  {
  }

  lemma AdvanceOrderly(db: Db, c: Caller)
    requires Orderly(c)
    ensures Orderly(Advance(db, c).1) && Advance(db, c).1.article == c.article
  {
    hide OverviewLine, OverviewBytes, MaxNumber, Newsgroups, ArticleId, Behind;
    if c.pc.WriteOverview? && ArticleId(c.article).Some? { BehindTail(c.groups, Newsgroups(c.article)); }
  }

  /** The statement is an insert that succeeds. */
  predicate InsertsRow(db: Db, c: Caller) {
    c.pc.Insert? && c.groups != [] && InsertRow(db, Key(c.groups[0], c.pc.next), Row(c.id, c.now)).Some?
  }

  lemma AdvanceInserts(db: Db, c: Caller, group: string)
    requires Orderly(c)
    ensures Inserted(Advance(db, c).1, group)
         == Inserted(c, group) + if InsertsRow(db, c) && c.groups[0] == group then 1 else 0
  {
    AdvanceCaller(db, c);
    hide Advance, Newsgroups, ArticleId, Behind, InsertsRow;
  }

  /** What becomes of a call's place in its list. */
  lemma AdvanceCaller(db: Db, c: Caller)
    requires Orderly(c)
    ensures var c' := Advance(db, c).1;
            c'.article == c.article && !c'.pc.InsertMessage?
            && c'.groups == (if c.pc.WriteOverview? then c.groups[1..] else c.groups)
            && ((c'.pc.ReadSize? || c'.pc.WriteOverview?) <==> (InsertsRow(db, c) || c.pc.ReadSize?))
  {
    hide OverviewLine, OverviewBytes, MaxNumber, Newsgroups, ArticleId, Behind, InsertOrIgnoreMessage, ReplaceOverview;
  }

  lemma AdvanceRows(db: Db, c: Caller)
    ensures Advance(db, c).0.rows
         == if InsertsRow(db, c) then db.rows[Key(c.groups[0], c.pc.next) := Row(c.id, c.now)] else db.rows
  {
    hide OverviewLine, OverviewBytes, MaxNumber;
  }

  /** A statement inserts the row it is counted for, or none. */
  lemma AdvanceCounts(db: Db, c: Caller, id: string, group: string)
    requires Orderly(c)
    ensures var (db', c') := Advance(db, c);
            Orderly(c') && c'.article == c.article
            && |RowsFor(db'.rows, group, id)|
               == |RowsFor(db.rows, group, id)| + if Mine(c, id) then Inserted(c', group) - Inserted(c, group) else 0
  {
    AdvanceOrderly(db, c);
    AdvanceInserts(db, c, group);
    AdvanceRows(db, c);
    if InsertsRow(db, c) {
      OneRowMore(db.rows, Key(c.groups[0], c.pc.next), Row(c.id, c.now), group, id);
      assert Mine(c, id) <==> c.id == id && ArticleId(c.article).Some?;
    }
    hide Advance, Inserted, RowsFor, Newsgroups, ArticleId, Behind;
  }

  lemma OneRowMore(rows: map<Key, Row>, k: Key, row: Row, group: string, id: string)
    requires k !in rows
    ensures |RowsFor(rows[k := row], group, id)|
         == |RowsFor(rows, group, id)| + if k.group == group && row.id == id then 1 else 0
  {
    hide RowsFor;
    var before, after := RowsFor(rows, group, id), RowsFor(rows[k := row], group, id);
    var more := if k.group == group && row.id == id then {k.number} else {};
    forall n
      ensures n in after <==> n in before || n in more
      ensures n in before ==> n !in more
    {
      InRowsFor(rows, group, id, n);
      InRowsFor(rows[k := row], group, id, n);
    }
    assert after == before + more && before !! more;
  }

  /** What a statement does to the messages. */
  lemma AdvanceTells(db: Db, c: Caller, id: string)
    requires Orderly(c)
    ensures var (db', c') := Advance(db, c);
            (id in db'.messages <==> id in db.messages || (Mine(c, id) && c.pc.InsertMessage?))
            && !c'.pc.InsertMessage?
  {
    hide OverviewLine, OverviewBytes, MaxNumber, Newsgroups, ArticleId;
  }

  lemma WorkKeepsTold(s: System, i: nat, id: string)
    requires Racing(s) && i < |s.callers|
    ensures Told(StoreConcurrency.Exec(s, Work(i)), id)
  {
    assert Orderly(s.callers[i]) && Told(s, id);
    AdvanceTells(s.db, s.callers[i], id);
    AdvanceCounts(s.db, s.callers[i], id, "");
    hide Advance, Inserted, Newsgroups, ArticleId;
    var t := StoreConcurrency.Exec(s, Work(i));
    assert forall j :: 0 <= j < |s.callers| && j != i ==> t.callers[j] == s.callers[j];
    if Mine(s.callers[i], id) { assert Mine(t.callers[i], id); }
    if j :| 0 <= j < |s.callers| && Mine(s.callers[j], id) && !s.callers[j].pc.InsertMessage? {
      assert Mine(t.callers[j], id) && !t.callers[j].pc.InsertMessage?;
    }
  }

  lemma WorkKeepsRacing(s: System, i: nat)
    requires Racing(s) && i < |s.callers|
    ensures Racing(StoreConcurrency.Exec(s, Work(i)))
  {
    hide Advance, Inserted, Orderly, Counted, Told, Mine;
    var t := StoreConcurrency.Exec(s, Work(i));
    AdvanceCounts(s.db, s.callers[i], "", "");
    forall id, g
      ensures Counted(t, id, g)
    {
      WorkKeepsCount(s, i, id, g);
    }
    forall id
      ensures Told(t, id)
    {
      WorkKeepsTold(s, i, id);
    }
  }

  lemma WorkKeepsCount(s: System, i: nat, id: string, g: string)
    requires Racing(s) && i < |s.callers|
    ensures Counted(StoreConcurrency.Exec(s, Work(i)), id, g)
  {
    assert Counted(s, id, g) && Orderly(s.callers[i]);
    AdvanceCounts(s.db, s.callers[i], id, g);
    InsertedChange(s.callers, i, Advance(s.db, s.callers[i]).1, id, g);
    assert Mine(Advance(s.db, s.callers[i]).1, id) <==> Mine(s.callers[i], id);
    hide Advance, Inserted, Newsgroups, ArticleId, InsertedBy, RowsFor;
  }

  lemma StartKeepsRacing(s: System, article: Message, now: int)
    requires Racing(s)
    ensures Racing(StoreConcurrency.Exec(s, Start(article, now)))
  {
    hide Newsgroups, ArticleId, RowsFor;
    var t, c := StoreConcurrency.Exec(s, Start(article, now)), Call(article, now);
    assert t.callers[..|s.callers|] == s.callers && t.callers[|s.callers|] == c;
    assert Orderly(c);
    forall i | 0 <= i < |t.callers|
      ensures Orderly(t.callers[i])
    {
      if i < |s.callers| { assert t.callers[i] == s.callers[i]; }
    }
    forall id, g
      ensures Counted(t, id, g)
    {
      assert Counted(s, id, g);
    }
    forall id
      ensures Told(t, id)
    {
      assert Told(s, id);
      assert forall i :: 0 <= i < |s.callers| ==> t.callers[i] == s.callers[i];
    }
  }

  lemma {:induction false} RacingAlways(s: System, steps: seq<Step>)
    requires Racing(s)
    ensures Racing(TakeAll(s, steps))
    decreases |steps|
  {
    hide Racing, StoreConcurrency.Exec;
    if steps != [] {
      match steps[0] {
        case Offer(offered, article, now) => StartKeepsRacing(s, article, now);
        case Continue(i) =>
          if i < |s.callers| { WorkKeepsRacing(s, i); } else { NoSuchCaller(s, i); }
      }
      RacingAlways(Take(s, steps[0]), steps[1..]);
    }
  }

  lemma NoSuchCaller(s: System, i: nat)
    requires i >= |s.callers|
    ensures StoreConcurrency.Exec(s, Work(i)) == s
  {
  }

  lemma NothingRaces()
    ensures Racing(Nothing())
  {
    forall id, g
      ensures Counted(Nothing(), id, g)
    {
      assert RowsFor(Nothing().db.rows, g, id) == {};
    }
  }

  // ---- One row per listing ----

  function Calls(callers: seq<Caller>, id: string): nat {
    if callers == [] then 0
    else Calls(callers[..|callers| - 1], id) + if Mine(callers[|callers| - 1], id) then 1 else 0
  }

  lemma {:induction false} AllInserted(callers: seq<Caller>, id: string, group: string, t: nat)
    requires forall c :: c in callers && Mine(c, id) ==> c.pc.Done? && Orderly(c) && Times(Newsgroups(c.article), group) == t
    ensures InsertedBy(callers, id, group) == Calls(callers, id) * t
  {
    if callers != [] {
      var last := |callers| - 1;
      assert forall c :: c in callers[..last] ==> c in callers;
      AllInserted(callers[..last], id, group, t);
      assert callers[last] in callers;
      assert (Calls(callers[..last], id) + 1) * t == Calls(callers[..last], id) * t + t;
    }
  }

  /** When all calls for an id are done, it has as many rows as calls for each listing of a group. */
  lemma OnceOfDone(steps: seq<Step>, id: string, group: string, t: nat)
    requires t > 0
    requires forall c :: c in TakeAll(Nothing(), steps).callers && Mine(c, id) ==>
                           c.pc.Done? && Times(Newsgroups(c.article), group) == t
    ensures var s := TakeAll(Nothing(), steps);
            |RowsFor(s.db.rows, group, id)| == Calls(s.callers, id) * t
            && (|RowsFor(s.db.rows, group, id)| == t <==> Calls(s.callers, id) == 1)
  {
    NothingRaces();
    RacingAlways(Nothing(), steps);
    var s := TakeAll(Nothing(), steps);
    hide TakeAll, RowsFor;
    assert Counted(s, id, group);
    AllInserted(s.callers, id, group, t);
    hide Calls, InsertedBy;
    OnlyOnce(Calls(s.callers, id), t);
  }

  lemma OnlyOnce(n: nat, t: nat)
    requires t > 0
    ensures n * t == t <==> n == 1
  {
    if n == 0 {
      assert n * t == 0;
    } else if n > 1 {
      Product(n - 1, t);
      assert n * t == (n - 1) * t + t;
    }
  }

  lemma {:induction false} Product(n: nat, t: nat)
    requires n > 0 && t > 0
    ensures n * t > 0
  {
    if n > 1 {
      Product(n - 1, t);
      assert n * t == (n - 1) * t + t;
    }
  }

  // ---- Calls that are refused ----

  predicate Settled(c: Caller) { c.pc.Done? || c.pc.Failed? }

  /** The call has inserted a row. */
  predicate Begun(c: Caller) { |c.groups| < |Newsgroups(c.article)| }

  function BegunCalls(callers: seq<Caller>, id: string): nat {
    if callers == [] then 0
    else BegunCalls(callers[..|callers| - 1], id)
         + if Mine(callers[|callers| - 1], id) && Begun(callers[|callers| - 1]) then 1 else 0
  }

  function DoneCalls(callers: seq<Caller>, id: string): nat {
    if callers == [] then 0
    else DoneCalls(callers[..|callers| - 1], id)
         + if Mine(callers[|callers| - 1], id) && callers[|callers| - 1].pc.Done? then 1 else 0
  }

  /** The rows of a settled call tell how far it has come: in the first group whether it has
      begun, in the last whether it is done. */
  lemma FirstAndLast(c: Caller, groups: seq<string>)
    requires groups != [] && Distinct(groups) && Newsgroups(c.article) == groups
    requires Settled(c) && Orderly(c) && ArticleId(c.article).Some?
    ensures Inserted(c, groups[0]) == if Begun(c) then 1 else 0
    ensures Inserted(c, groups[|groups| - 1]) == if c.pc.Done? then 1 else 0
    ensures c.pc.Done? ==> Begun(c) && forall g :: Inserted(c, g) == Times(groups, g)
    ensures !Begun(c) ==> forall g :: Inserted(c, g) == 0
  {
    hide Newsgroups, ArticleId;
    var first, last := groups[0], groups[|groups| - 1];
    TimesOfMember(groups, first);
    TimesOfMember(groups, last);
    TimesOfMember(c.groups, first);
    TimesOfMember(c.groups, last);
    assert c.groups != [] ==> c.groups[|c.groups| - 1] == last;
    assert |c.groups| == |groups| ==> c.groups == groups;
  }

  lemma {:induction false} SettledSums(callers: seq<Caller>, id: string, groups: seq<string>, g: string)
    requires groups != [] && Distinct(groups)
    requires forall c :: c in callers && Mine(c, id) ==> Settled(c) && Orderly(c) && Newsgroups(c.article) == groups
    ensures InsertedBy(callers, id, groups[0]) == BegunCalls(callers, id)
    ensures InsertedBy(callers, id, groups[|groups| - 1]) == DoneCalls(callers, id) <= BegunCalls(callers, id)
    ensures BegunCalls(callers, id) == 0 ==> InsertedBy(callers, id, g) == 0
    ensures BegunCalls(callers, id) == 1 == DoneCalls(callers, id) ==> InsertedBy(callers, id, g) == Times(groups, g)
  {
    if callers != [] {
      var c, before := callers[|callers| - 1], callers[..|callers| - 1];
      assert c in callers && forall d :: d in before ==> d in callers;
      if Mine(c, id) { FirstAndLast(c, groups); }
      hide Inserted, Begun, Mine, Settled, Orderly, Newsgroups, Times, Distinct;
      SettledSums(before, id, groups, g);
    }
  }

  /** However look-ups and statements interleave, once all calls for an id are done or refused,
      it has exactly one row in each listed group and none elsewhere if and only if one call alone
      has inserted anything and one is done. */
  lemma OnceExactly(steps: seq<Step>, id: string, groups: seq<string>)
    requires groups != [] && Distinct(groups)
    requires forall c :: c in TakeAll(Nothing(), steps).callers && Mine(c, id) ==>
                           Settled(c) && Newsgroups(c.article) == groups
    ensures var s := TakeAll(Nothing(), steps);
            (forall g :: |RowsFor(s.db.rows, g, id)| == if g in groups then 1 else 0)
            <==> BegunCalls(s.callers, id) == 1 && DoneCalls(s.callers, id) == 1
  {
    NothingRaces();
    RacingAlways(Nothing(), steps);
    var s := TakeAll(Nothing(), steps);
    assert forall c :: c in s.callers ==> Orderly(c);
    hide TakeAll, RowsFor, Newsgroups, Orderly, BegunCalls, DoneCalls, InsertedBy, Mine, Settled, Times;
    forall g
      ensures |RowsFor(s.db.rows, g, id)| == InsertedBy(s.callers, id, g)
      ensures Times(groups, g) == if g in groups then 1 else 0
      ensures InsertedBy(s.callers, id, groups[0]) == BegunCalls(s.callers, id)
      ensures InsertedBy(s.callers, id, groups[|groups| - 1]) == DoneCalls(s.callers, id)
      ensures BegunCalls(s.callers, id) == 1 == DoneCalls(s.callers, id) ==> InsertedBy(s.callers, id, g) == Times(groups, g)
    {
      assert Counted(s, id, g);
      SettledSums(s.callers, id, groups, g);
      TimesOfMember(groups, g);
    }
    assert groups[0] in groups && groups[|groups| - 1] in groups;
  }

  /** Of a single call, whatever it lists: every listing has its row if and only if it is done. */
  lemma OneCallExactly(steps: seq<Step>, i: nat, id: string)
    requires var cs := TakeAll(Nothing(), steps).callers;
             i < |cs| && Mine(cs[i], id) && Settled(cs[i]) && forall j :: 0 <= j < |cs| && j != i ==> !Mine(cs[j], id)
    ensures var s := TakeAll(Nothing(), steps);
            (forall g :: |RowsFor(s.db.rows, g, id)| == Times(Newsgroups(s.callers[i].article), g)) <==> s.callers[i].pc.Done?
  {
    NothingRaces();
    RacingAlways(Nothing(), steps);
    var s := TakeAll(Nothing(), steps);
    var c := s.callers[i];
    assert Orderly(c);
    hide TakeAll, RowsFor, Newsgroups, ArticleId;
    forall g
      ensures |RowsFor(s.db.rows, g, id)| == Times(Newsgroups(c.article), g) - Times(c.groups, g)
    {
      assert Counted(s, id, g);
      OnlyOneInserts(s.callers, i, id, g);
    }
    if c.pc.Failed? {
      assert Times(c.groups, c.groups[0]) > 0;
      assert |RowsFor(s.db.rows, c.groups[0], id)| != Times(Newsgroups(c.article), c.groups[0]);
    }
  }

  lemma {:induction false} OnlyOneInserts(callers: seq<Caller>, i: nat, id: string, g: string)
    requires i < |callers| && Mine(callers[i], id) && forall j :: 0 <= j < |callers| && j != i ==> !Mine(callers[j], id)
    ensures InsertedBy(callers, id, g) == Inserted(callers[i], g)
  {
    hide Inserted, Mine;
    var last := |callers| - 1;
    if i == last {
      NobodyInserts(callers[..last], id, g);
    } else {
      OnlyOneInserts(callers[..last], i, id, g);
    }
  }

  lemma {:induction false} NobodyInserts(callers: seq<Caller>, id: string, g: string)
    requires forall j :: 0 <= j < |callers| ==> !Mine(callers[j], id)
    ensures InsertedBy(callers, id, g) == 0
  {
    hide Mine;
    if callers != [] { NobodyInserts(callers[..|callers| - 1], id, g); }
  }

  /** The offered id is the article's own. */
  predicate OwnId(step: Step) { step.Offer? ==> ArticleId(step.article) == Some(step.offered) }

  /** Once its message is stored and its calls are settled, an id keeps the rows it has, in the
      groups it lacks too: every later offer of it is refused. */
  lemma {:induction false} SettledForGood(s: System, steps: seq<Step>, id: string, g: string)
    requires Racing(s) && id in s.db.messages && (forall c :: c in s.callers && Mine(c, id) ==> Settled(c))
    requires forall step :: step in steps ==> OwnId(step)
    ensures !LetsPass(TakeAll(s, steps).db, id)
    ensures |RowsFor(TakeAll(s, steps).db.rows, g, id)| == |RowsFor(s.db.rows, g, id)|
    decreases |steps|
  {
    hide Racing, RowsFor;
    if steps != [] {
      assert steps[0] in steps && forall step :: step in steps[1..] ==> step in steps;
      RacingAlways(s, [steps[0]]);
      assert [steps[0]][1..] == [];
      var next := Take(s, steps[0]);
      assert TakeAll(next, []) == next;
      SettledStep(s, steps[0], id, g);
      SettledForGood(next, steps[1..], id, g);
    }
  }

  lemma SettledStep(s: System, step: Step, id: string, g: string)
    requires Racing(s) && id in s.db.messages && (forall c :: c in s.callers && Mine(c, id) ==> Settled(c)) && OwnId(step)
    ensures var next := Take(s, step);
            id in next.db.messages && (forall c :: c in next.callers && Mine(c, id) ==> Settled(c))
            && |RowsFor(next.db.rows, g, id)| == |RowsFor(s.db.rows, g, id)|
  {
    hide RowsFor, Newsgroups;
    var next := Take(s, step);
    match step {
      case Offer(offered, article, now) =>
        assert forall c :: c in next.callers ==> c in s.callers || (c == Call(article, now) && offered != id);
      case Continue(i) =>
        if i < |s.callers| {
          assert s.callers[i] in s.callers && Orderly(s.callers[i]);
          AdvanceTells(s.db, s.callers[i], id);
          AdvanceCounts(s.db, s.callers[i], id, g);
          SettledRests(s.db, s.callers[i]);
          hide Advance, Orderly, ArticleId;
          assert forall c :: c in next.callers ==> c in s.callers || c == Advance(s.db, s.callers[i]).1;
        }
    }
  }

  lemma SettledRests(db: Db, c: Caller)
    ensures Settled(c) ==> Advance(db, c) == (db, c)
  {
  }

  lemma Next(steps: seq<Step>, step: Step) returns (more: seq<Step>)
    ensures more == steps + [step] && TakeAll(Nothing(), more) == Take(TakeAll(Nothing(), steps), step)
  {
    TakeConcat(Nothing(), steps, [step]);
    hide Take;
    var s := TakeAll(Nothing(), steps);
    assert [step][1..] == [];
    assert TakeAll(s, [step]) == TakeAll(Take(s, step), []);
    more := steps + [step];
  }

  /** A run from the empty store in which a call is refused: two articles of one group are begun
      together and read the same highest number. The one that inserts second is refused, its
      message is stored without a row, and it stays so. */
  lemma RefusedForGood(now: int, later: seq<Step>) returns (steps: seq<Step>)
    requires forall step :: step in later ==> OwnId(step)
    ensures var s := TakeAll(Nothing(), steps);
            |s.callers| == 2 && s.callers[0].pc.Done? && s.callers[1].pc.Failed? && "<b@b>" in s.db.messages
            && !LetsPass(TakeAll(s, later).db, "<b@b>") && |RowsFor(TakeAll(s, later).db.rows, "g", "<b@b>")| == 0
  {
    var a, b := Sample("<a@b>"), Sample("<b@b>");
    SampleParts("<a@b>");
    SampleParts("<b@b>");
    hide Sample, RowsFor, TakeAll, Newsgroups, ArticleId;
    steps := RefusalSteps(a, b, "<a@b>", "<b@b>", "g", now);
    NothingRaces();
    RacingAlways(Nothing(), steps);
    var s := TakeAll(Nothing(), steps);
    SettledForGood(s, later, "<b@b>", "g");
  }

  lemma RefusalSteps(a: Message, b: Message, ia: string, ib: string, g: string, now: int) returns (steps: seq<Step>)
    requires ArticleId(a) == Some(ia) && ArticleId(b) == Some(ib) && ia != ib
    requires Newsgroups(a) == [g] == Newsgroups(b)
    ensures var s := TakeAll(Nothing(), steps);
            s.callers == [Caller(ia, a, now, [], Done), Caller(ib, b, now, [g], Failed)]
            && ib in s.db.messages && RowsFor(s.db.rows, g, ib) == {}
  {
    hide Newsgroups, ArticleId, MaxNumber, OverviewLine, OverviewBytes, TakeAll;
    NoNumbers(map[], g);
    var ma, mb := Stored(a, Bytes(a.body)), Stored(b, Bytes(b.body));
    steps := TwoReadings(a, b, ia, ib, g, now);
    steps := Next(steps, Continue(0));
    steps := Next(steps, Continue(1));
    assert TakeAll(Nothing(), steps).callers == [Caller(ia, a, now, [g], ReadSize(1)), Caller(ib, b, now, [g], Failed)];
    steps := Next(steps, Continue(0));
    steps := Next(steps, Continue(0));
    var s := TakeAll(Nothing(), steps);
    assert s.db.rows == map[Key(g, 1) := Row(ia, now)];
  }

  /** Both calls have read the highest number of the empty group. */
  lemma TwoReadings(a: Message, b: Message, ia: string, ib: string, g: string, now: int) returns (steps: seq<Step>)
    requires ArticleId(a) == Some(ia) && ArticleId(b) == Some(ib) && ia != ib
    requires Newsgroups(a) == [g] == Newsgroups(b)
    ensures TakeAll(Nothing(), steps)
         == System(Db(map[ia := Stored(a, Bytes(a.body)), ib := Stored(b, Bytes(b.body))], map[], map[], map[]),
                   [Caller(ia, a, now, [g], Insert(1)), Caller(ib, b, now, [g], Insert(1))])
  {
    hide Newsgroups, ArticleId, MaxNumber, OverviewLine, OverviewBytes;
    NoNumbers(map[], g);
    assert TakeAll(Nothing(), []) == Nothing();
    hide TakeAll;
    steps := Next([], Offer(ia, a, now));
    steps := Next(steps, Offer(ib, b, now));
    assert TakeAll(Nothing(), steps) == System(Empty(), [Call(a, now), Call(b, now)]);
    steps := Next(steps, Continue(0));
    steps := Next(steps, Continue(1));
    assert TakeAll(Nothing(), steps).callers == [Caller(ia, a, now, [g], ReadMax), Caller(ib, b, now, [g], ReadMax)];
    steps := Next(steps, Continue(0));
    steps := Next(steps, Continue(1));
  }

  /** And a look-up lets an id pass exactly while every call for it is before its first statement. */
  lemma LetsPassExactly(steps: seq<Step>, offered: string)
    ensures var s := TakeAll(Nothing(), steps);
            LetsPass(s.db, offered)
            <==> forall c :: c in s.callers && Mine(c, offered) ==> c.pc.InsertMessage?
  {
    NothingRaces();
    RacingAlways(Nothing(), steps);
    var s := TakeAll(Nothing(), steps);
    assert Told(s, offered);
    assert forall i :: 0 <= i < |s.callers| ==> s.callers[i] in s.callers;
  }

  // ---- Two look-ups before either store ----

  function Continues(i: nat, n: nat): seq<Step> { if n == 0 then [] else [Continue(i)] + Continues(i, n - 1) }

  lemma {:induction false} TakeConcat(s: System, a: seq<Step>, b: seq<Step>)
    ensures TakeAll(s, a + b) == TakeAll(TakeAll(s, a), b)
    decreases |a|
  {
    hide Take;
    if a == [] {
      assert a + b == b;
    } else {
      assert (a + b)[1..] == a[1..] + b;
      TakeConcat(Take(s, a[0]), a[1..], b);
    }
  }

  lemma {:induction false} ContinuesAreTurns(s: System, i: nat, n: nat)
    ensures TakeAll(s, Continues(i, n)) == StoreConcurrency.ExecAll(s, Turns(i, n))
    decreases n
  {
    hide StoreConcurrency.Exec;
    if n > 0 {
      assert Continues(i, n)[1..] == Continues(i, n - 1) && Turns(i, n)[1..] == Turns(i, n - 1);
      ContinuesAreTurns(Take(s, Continue(i)), i, n - 1);
    }
  }

  lemma {:induction false} AloneKeepsArticle(db: Db, c: Caller, n: nat)
    ensures Alone(db, c, n).1.article == c.article
    decreases n
  {
    if n > 0 {
      assert Advance(db, c).1.article == c.article by { hide OverviewLine, OverviewBytes, MaxNumber; }
      AloneKeepsArticle(Advance(db, c).0, Advance(db, c).1, n - 1);
    }
  }

  /** Two offers of any article that are both looked up before either is stored: both are
      accepted, and every group has two rows for each listing. */
  lemma BothPass(a: Message, id: string, now: int, group: string) returns (steps: seq<Step>)
    requires ArticleId(a) == Some(id)
    ensures var s := TakeAll(Nothing(), steps);
            (forall c :: c in s.callers ==> c.pc.Done?) && Calls(s.callers, id) == 2
            && |RowsFor(s.db.rows, group, id)| == 2 * Times(Newsgroups(a), group)
  {
    var c := Call(a, now);
    var n := 4 * |c.groups| + 1;
    assert c.article == a;
    hide Advance, Alone, AfterStore, Newsgroups, RowsFor, ArticleId, TakeAll, StoreConcurrency.ExecAll, Calls, Call;
    var offers := [Offer(id, a, now), Offer(id, a, now)];
    AloneIsStore(Empty(), a, now);
    var db1, done := AfterStore(Empty(), a, now), Alone(Empty(), c, n).1;
    AloneIsStore(db1, a, now);
    var again := Alone(db1, c, n).1;
    AloneKeepsArticle(Empty(), c, n);
    AloneKeepsArticle(db1, c, n);
    steps := offers + Continues(0, n) + Continues(1, n);
    TwoOffers(a, id, now);
    TakeConcat(Nothing(), offers + Continues(0, n), Continues(1, n));
    TakeConcat(Nothing(), offers, Continues(0, n));
    ContinuesAreTurns(System(Empty(), [c, c]), 0, n);
    TurnsAlone(System(Empty(), [c, c]), 0, n);
    assert [c, c][0 := done] == [done, c] && [done, c][1 := again] == [done, again];
    ContinuesAreTurns(System(db1, [done, c]), 1, n);
    TurnsAlone(System(db1, [done, c]), 1, n);
    var s := TakeAll(Nothing(), steps);
    assert s.callers == [done, again];
    RowsOfBoth(steps, s, a, id, group, done, again);
  }

  lemma TwoOffers(a: Message, id: string, now: int)
    requires ArticleId(a) == Some(id)
    ensures TakeAll(Nothing(), [Offer(id, a, now), Offer(id, a, now)]) == System(Empty(), [Call(a, now), Call(a, now)])
  {
    hide ArticleId, Newsgroups;
    var o := Offer(id, a, now);
    assert [o, o][1..] == [o] && [o][1..] == [];
    var s1 := Take(Nothing(), o);
    assert TakeAll(Nothing(), [o, o]) == TakeAll(s1, [o]) == TakeAll(Take(s1, o), []);
  }

  lemma RowsOfBoth(steps: seq<Step>, s: System, a: Message, id: string, group: string, c: Caller, d: Caller)
    requires s == TakeAll(Nothing(), steps) && s.callers == [c, d] && c.pc.Done? && d.pc.Done?
    requires c.article == a == d.article && ArticleId(a) == Some(id)
    ensures Calls(s.callers, id) == 2 && |RowsFor(s.db.rows, group, id)| == 2 * Times(Newsgroups(a), group)
  {
    NothingRaces();
    RacingAlways(Nothing(), steps);
    assert Orderly(s.callers[0]) && Orderly(s.callers[1]) && Counted(s, id, group);
    assert Mine(c, id) && Mine(d, id);
    hide TakeAll, RowsFor, Newsgroups, ArticleId, Orderly, Inserted, InsertedBy, Mine, Times, Racing;
    var t := Times(Newsgroups(a), group);
    AllInserted(s.callers, id, group, t);
    TwoCalls(c, d, id);
    hide Calls;
    Twice(Calls(s.callers, id), t);
  }

  lemma Twice(n: nat, t: nat)
    requires n == 2
    ensures n * t == 2 * t
  {
  }

  lemma TwoCalls(c: Caller, d: Caller, id: string)
    requires Mine(c, id) && Mine(d, id)
    ensures Calls([c, d], id) == 2
  {
    assert [c, d][..1] == [c] && [c][..0] == [];
    assert Calls([c], id) == Calls([], id) + 1;
  }
}
