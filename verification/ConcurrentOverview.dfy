/** The overview cache while calls interleave: a row is either cached rightly or owed its
    line by a caller of its own message, and what makes it otherwise. */
module ConcurrentOverview {
  import opened Text
  import opened Wire
  import opened Store
  import opened StoreRuns
  import opened StoreConcurrency

  predicate AtWork(c: Caller) { !c.pc.Done? && !c.pc.Failed? }

  /** The caller has inserted the row at `k` and not yet written its overview line. */
  predicate Owes(c: Caller, k: Key) {
    c.groups != [] && ((c.pc.ReadSize? && k == Key(c.groups[0], c.pc.number))
                       || (c.pc.WriteOverview? && k == Key(c.groups[0], c.pc.at)))
  }

  /** A caller of this message owes the line at `k`. */
  ghost predicate Owed(callers: seq<Caller>, k: Key, id: string) {
    exists i :: 0 <= i < |callers| && callers[i].id == id && Owes(callers[i], k)
  }

  predicate Sized(db: Db) { forall id :: id in db.messages ==> db.messages[id].size == Bytes(db.messages[id].article.body) }

  /** A caller at work brings the stored article, and the size it has read is right. */
  predicate CallerConsistent(db: Db, c: Caller) {
    AtWork(c) ==>
      ArticleId(c.article) == Some(c.id) && (c.id in db.messages ==> db.messages[c.id].article == c.article)
      && (!c.pc.InsertMessage? ==> c.groups != [])
      && (c.pc.WriteOverview? ==> c.pc.bytes == Bytes(c.article.body))
  }

  /** Two calls at work under one Message-ID bring the same article. */
  predicate SameCall(c: Caller, d: Caller) { AtWork(c) && AtWork(d) && c.id == d.id ==> c.article == d.article }

  ghost predicate Steady(s: System) {
    Sound(s.db) && Keyed(s.db) && Sized(s.db)
    && (forall i, j :: 0 <= i < |s.callers| && 0 <= j < |s.callers| ==> SameCall(s.callers[i], s.callers[j]))
    && (forall i :: 0 <= i < |s.callers| ==> CallerConsistent(s.db, s.callers[i]))
  }

  /** The row is cached rightly, or a caller of its message owes it its line. */
  ghost predicate Fine(s: System, k: Key)
    requires Sound(s.db) && k in s.db.rows
  {
    CachedAt(s.db, k) || Owed(s.callers, k, s.db.rows[k].id)
  }

  ghost predicate AllFine(s: System) { Sound(s.db) && forall k :: k in s.db.rows ==> Fine(s, k) }

  /** A new call brings the article that is stored, or being stored, under its id. */
  ghost predicate MayStart(s: System, e: Event) {
    e.Start? ==>
      var c := Call(e.article, e.now);
      (forall i :: 0 <= i < |s.callers| ==> SameCall(s.callers[i], c))
      && (AtWork(c) && c.id in s.db.messages ==> s.db.messages[c.id].article == c.article)
  }

  ghost predicate Admissible(s: System, es: seq<Event>)
    decreases |es|
  {
    es == [] || (MayStart(s, es[0]) && Admissible(Exec(s, es[0]), es[1..]))
  }

  // ---- What every statement keeps ----

  lemma DeletedShrinks(db: Db, d: Delete)
    requires Sound(db)
    ensures var after := Deleted(db, d);
            Sound(after) && after.overview == db.overview
            && (forall k :: k in after.rows ==> k in db.rows && after.rows[k] == db.rows[k])
            && (forall id :: id in after.messages ==> id in db.messages && after.messages[id] == db.messages[id])
  {
  }

  /** What a caller's statement does to the messages and to the caller. */
  ghost predicate KeptSteady(db: Db, c: Caller, db': Db, c': Caller) {
    Sound(db') && Keyed(db') && Sized(db') && CallerConsistent(db', c')
    && (AtWork(c') ==> AtWork(c) && c'.id == c.id && c'.article == c.article)
    && (forall id :: id in db.messages ==> id in db'.messages && db'.messages[id] == db.messages[id])
    && (forall id :: id in db'.messages && id !in db.messages ==>
          AtWork(c) && id == c.id && db'.messages[id].article == c.article)
  }

  lemma InsertMessageSteady(db: Db, c: Caller)
    requires Sound(db) && Keyed(db) && Sized(db) && CallerConsistent(db, c) && c.pc.InsertMessage?
    ensures KeptSteady(db, c, Advance(db, c).0, Advance(db, c).1)
  {
    hide OverviewLine, MaxNumber, ArticleId, Bytes;
    var db' := Advance(db, c).0;
    assert forall k :: k in db'.rows ==> db'.rows[k].id in db.messages;
  }

  lemma InsertSteady(db: Db, c: Caller)
    requires Sound(db) && Keyed(db) && Sized(db) && CallerConsistent(db, c) && c.pc.Insert?
    ensures KeptSteady(db, c, Advance(db, c).0, Advance(db, c).1)
  {
    hide OverviewLine, MaxNumber, ArticleId, Bytes;
    AdvanceKeepsRows(db, c);
    assert Advance(db, c).0.messages == db.messages;
  }

  lemma OtherSteady(db: Db, c: Caller)
    requires Sound(db) && Keyed(db) && Sized(db) && CallerConsistent(db, c) && !c.pc.InsertMessage? && !c.pc.Insert?
    ensures KeptSteady(db, c, Advance(db, c).0, Advance(db, c).1)
  {
    hide OverviewLine, MaxNumber, ArticleId, Bytes;
    var db' := Advance(db, c).0;
    assert db'.messages == db.messages && db'.rows == db.rows;
  }

  lemma AdvanceSteady(db: Db, c: Caller)
    requires Sound(db) && Keyed(db) && Sized(db) && CallerConsistent(db, c)
    ensures KeptSteady(db, c, Advance(db, c).0, Advance(db, c).1)
  {
    hide *;
    if c.pc.InsertMessage? {
      InsertMessageSteady(db, c);
    } else if c.pc.Insert? {
      InsertSteady(db, c);
    } else {
      OtherSteady(db, c);
    }
  }

  lemma WorkSteady(s: System, i: nat)
    requires Steady(s) && i < |s.callers|
    ensures Steady(Exec(s, Work(i)))
  {
    hide Advance, Sound, Keyed, Sized;
    AdvanceSteady(s.db, s.callers[i]);
    var t := Exec(s, Work(i));
    forall j | 0 <= j < |t.callers|
      ensures CallerConsistent(t.db, t.callers[j])
    {
      if j != i { assert SameCall(s.callers[j], s.callers[i]) && CallerConsistent(s.db, s.callers[j]); }
    }
    forall j, l | 0 <= j < |t.callers| && 0 <= l < |t.callers|
      ensures SameCall(t.callers[j], t.callers[l])
    {
      assert SameCall(s.callers[j], s.callers[l]);
    }
  }

  lemma ExecSteady(s: System, e: Event)
    requires Steady(s) && MayStart(s, e)
    ensures Steady(Exec(s, e))
  {
    hide Newsgroups, ArticleId, Bytes;
    match e {
      case Work(i) =>
        if i < |s.callers| { WorkSteady(s, i); }
      case Del(d) =>
        DeletedShrinks(s.db, d);
        hide Deleted;
        assert forall i :: 0 <= i < |s.callers| ==> CallerConsistent(s.db, s.callers[i]);
      case Start(article, now) =>
        assert SameCall(Call(article, now), Call(article, now));
    }
  }

  // ---- Which statement makes a row wrong ----

  /** A line that comes late: the key now carries another message's row, whose line nobody
      of that message owes any more, and the two articles' overview fields differ. */
  ghost predicate Clobbers(s: System, e: Event)
    requires Sound(s.db)
  {
    e.Work? && e.i < |s.callers| && s.callers[e.i].pc.WriteOverview? && s.callers[e.i].groups != []
    && var c := s.callers[e.i];
       var k := Key(c.groups[0], c.pc.at);
       k in s.db.rows && s.db.rows[k].id != c.id && !Owed(s.callers, k, s.db.rows[k].id)
       && var there := s.db.messages[s.db.rows[k].id];
          OverviewFields(c.article, c.pc.bytes) != OverviewFields(there.article, there.size)
  }

  /** Right is the line with the stored article's fields and size. */
  lemma CachedExactly(db: Db, k: Key)
    requires Sound(db) && Keyed(db) && k in db.rows
    ensures var there := db.messages[db.rows[k].id];
            CachedAt(db, k) <==> k in db.overview && db.overview[k] == OverviewLine(k.number, there.article, there.size)
  {
  }

  lemma CachedStays(db: Db, db': Db, k: Key)
    requires Sound(db) && Keyed(db) && Sound(db') && Keyed(db') && k in db.rows && k in db'.rows && db'.rows[k] == db.rows[k]
    requires db'.messages[db.rows[k].id] == db.messages[db.rows[k].id]
    requires k in db.overview ==> k in db'.overview && db'.overview[k] == db.overview[k]
    ensures CachedAt(db, k) ==> CachedAt(db', k)
  {
    hide CachedAt, OverviewLine;
    CachedExactly(db, k);
    CachedExactly(db', k);
  }

  lemma DeletingIsFine(s: System, d: Delete, k: Key)
    requires Steady(s) && k in Deleted(s.db, d).rows && Sound(Deleted(s.db, d)) && k in s.db.rows && Fine(s, k)
    ensures Fine(Exec(s, Del(d)), k)
  {
    var t := Exec(s, Del(d));
    ExecSteady(s, Del(d));
    DeletedShrinks(s.db, d);
    hide Deleted, CachedAt, Owed, Keyed, Sized, OverviewLine;
    assert t.db.rows[k].id in t.db.messages;
    CachedStays(s.db, t.db, k);
  }

  lemma StartingIsFine(s: System, e: Event, k: Key)
    requires Steady(s) && e.Start? && k in s.db.rows && Fine(s, k)
    ensures Fine(Exec(s, e), k)
  {
    hide CachedAt, Newsgroups, ArticleId, Owes;
    var t := Exec(s, e);
    var id := s.db.rows[k].id;
    if Owed(s.callers, k, id) {
      var i :| 0 <= i < |s.callers| && s.callers[i].id == id && Owes(s.callers[i], k);
      assert t.callers[i] == s.callers[i];
    }
  }

  /** What a statement does to one key: to its row, its line and the caller's debt. */
  lemma AdvanceAt(db: Db, c: Caller, k: Key)
    requires Sound(db) && CallerConsistent(db, c)
    ensures var (db', c') := Advance(db, c);
            (k in db.rows ==> k in db'.rows && db'.rows[k] == db.rows[k])
            && (k in db'.rows && k !in db.rows ==> Owes(c', k) && c'.id == c.id == db'.rows[k].id)
            && (Owes(c, k) && !c.pc.WriteOverview? ==> Owes(c', k) && c'.id == c.id)
            && (if Owes(c, k) && c.pc.WriteOverview?
                then !Owes(c', k) && k in db'.overview && db'.overview[k] == OverviewLine(k.number, c.article, c.pc.bytes)
                else (k in db.overview ==> k in db'.overview && db'.overview[k] == db.overview[k]))
  {
    hide OverviewLine, MaxNumber, ArticleId;
  }

  /** Others' debts are not touched. */
  lemma OwedByOthers(s: System, i: nat, k: Key, id: string)
    requires i < |s.callers|
    ensures var t := Exec(s, Work(i));
            (Owed(t.callers, k, id) <==>
             (exists j :: 0 <= j < |s.callers| && j != i && s.callers[j].id == id && Owes(s.callers[j], k))
             || (t.callers[i].id == id && Owes(t.callers[i], k)))
            && (Owed(s.callers, k, id) <==>
                (exists j :: 0 <= j < |s.callers| && j != i && s.callers[j].id == id && Owes(s.callers[j], k))
                || (s.callers[i].id == id && Owes(s.callers[i], k)))
  {
    hide Advance, Owes;
    var t := Exec(s, Work(i));
    assert forall j :: 0 <= j < |s.callers| && j != i ==> t.callers[j] == s.callers[j];
  }

  lemma WrittenFineExactly(s: System, i: nat, k: Key)
    requires Steady(s) && i < |s.callers| && k in s.db.rows && Steady(Exec(s, Work(i)))
    requires Owes(s.callers[i], k) && s.callers[i].pc.WriteOverview?
    ensures var t := Exec(s, Work(i)); k in t.db.rows && (Fine(t, k) <==> !Clobbers(s, Work(i)))
  {
    var c, t := s.callers[i], Exec(s, Work(i));
    assert CallerConsistent(s.db, c);
    AdvanceAt(s.db, c, k);
    AdvanceSteady(s.db, c);
    OwedByOthers(s, i, k, t.db.rows[k].id);
    CachedExactly(t.db, k);
    var there := s.db.messages[s.db.rows[k].id];
    SameLine(k.number, c.article, c.pc.bytes, there.article, there.size);
    OwnLine(s, i, k);
    hide Advance, CachedAt, Owed, Keyed, Sized, OverviewLine, OverviewFields, CallerConsistent, SameCall;
  }

  lemma OtherwiseFine(s: System, i: nat, k: Key)
    requires Steady(s) && i < |s.callers| && (k in s.db.rows ==> Fine(s, k))
    requires k in Exec(s, Work(i)).db.rows && Steady(Exec(s, Work(i)))
    requires !(Owes(s.callers[i], k) && s.callers[i].pc.WriteOverview?)
    ensures Fine(Exec(s, Work(i)), k)
  {
    var c, t := s.callers[i], Exec(s, Work(i));
    assert CallerConsistent(s.db, c);
    AdvanceAt(s.db, c, k);
    AdvanceSteady(s.db, c);
    OwedByOthers(s, i, k, t.db.rows[k].id);
    hide Advance, CachedAt, Owed, Keyed, Sized, OverviewLine, OverviewFields, CallerConsistent, SameCall, Owes;
    if k in s.db.rows { CachedStays(s.db, t.db, k); }
  }

  /** After a caller's statement a row that was fine, or is new, is fine, unless it is clobbered. */
  lemma WorkFineExactly(s: System, i: nat, k: Key)
    requires Steady(s) && i < |s.callers| && (k in s.db.rows ==> Fine(s, k))
    requires k in Exec(s, Work(i)).db.rows && Steady(Exec(s, Work(i)))
    ensures Fine(Exec(s, Work(i)), k) <==> !(Clobbers(s, Work(i)) && Owes(s.callers[i], k))
  {
    hide Fine, Exec, Advance;
    if Owes(s.callers[i], k) && s.callers[i].pc.WriteOverview? && k in s.db.rows {
      WrittenFineExactly(s, i, k);
    } else if !(Owes(s.callers[i], k) && s.callers[i].pc.WriteOverview?) {
      OtherwiseFine(s, i, k);
    } else {
      NoNewRow(s, i, k);
    }
  }

  lemma NoNewRow(s: System, i: nat, k: Key)
    requires i < |s.callers| && s.callers[i].pc.WriteOverview?
    ensures Exec(s, Work(i)).db.rows == s.db.rows
  {
    hide OverviewLine;
  }

  /** A caller whose message has the row writes the very line. */
  lemma OwnLine(s: System, i: nat, k: Key)
    requires Steady(s) && i < |s.callers| && s.callers[i].pc.WriteOverview? && k in s.db.rows
    ensures var c, there := s.callers[i], s.db.messages[s.db.rows[k].id];
            s.db.rows[k].id == c.id ==> OverviewFields(c.article, c.pc.bytes) == OverviewFields(there.article, there.size)
  {
    assert CallerConsistent(s.db, s.callers[i]);
  }

  /** Whatever statement is executed, deletions included: all rows stay fine exactly when it
      is not a line that comes late. */
  lemma LateLineExactly(s: System, e: Event)
    requires Steady(s) && AllFine(s) && MayStart(s, e)
    ensures AllFine(Exec(s, e)) <==> !Clobbers(s, e)
  {
    ExecSteady(s, e);
    var t := Exec(s, e);
    match e {
      case Start(article, now) =>
        forall k | k in t.db.rows
          ensures Fine(t, k)
        {
          StartingIsFine(s, e, k);
        }
      case Del(d) =>
        DeletedShrinks(s.db, d);
        forall k | k in t.db.rows
          ensures Fine(t, k)
        {
          DeletingIsFine(s, d, k);
        }
      case Work(i) =>
        if i < |s.callers| {
          hide Advance, Fine, Clobbers;
          forall k | k in t.db.rows
            ensures Fine(t, k) <==> !(Clobbers(s, e) && Owes(s.callers[i], k))
          {
            WorkFineExactly(s, i, k);
          }
          if Clobbers(s, e) { ClobberedKey(s, i); }
        }
    }
  }

  lemma ClobberedKey(s: System, i: nat)
    requires Steady(s) && Clobbers(s, Work(i))
    ensures exists k :: k in Exec(s, Work(i)).db.rows && Owes(s.callers[i], k)
  {
    var c := s.callers[i];
    var k := Key(c.groups[0], c.pc.at);
    AdvanceAt(s.db, c, k);
    assert Owes(c, k);
  }

  // ---- Over whole runs ----

  ghost predicate FineAlong(s: System, es: seq<Event>)
    decreases |es|
  {
    AllFine(s) && (es == [] || FineAlong(Exec(s, es[0]), es[1..]))
  }

  /** Some statement of the run is a line that comes late. */
  ghost predicate Clobbered(s: System, es: seq<Event>)
    decreases |es|
  {
    es != [] && ((Sound(s.db) && Clobbers(s, es[0])) || Clobbered(Exec(s, es[0]), es[1..]))
  }

  /** Along a run, deletions included, every row is fine in every state exactly when no line
      comes late. */
  lemma {:induction false} FineAlongExactly(s: System, es: seq<Event>)
    requires Steady(s) && AllFine(s) && Admissible(s, es)
    ensures FineAlong(s, es) <==> !Clobbered(s, es)
    decreases |es|
  {
    hide Steady, AllFine, MayStart, Exec, Clobbers;
    if es != [] {
      LateLineExactly(s, es[0]);
      ExecSteady(s, es[0]);
      SteadyIsSound(s);
      if !Clobbers(s, es[0]) { FineAlongExactly(Exec(s, es[0]), es[1..]); } else { NotFine(Exec(s, es[0]), es[1..]); }
    }
  }

  lemma SteadyIsSound(s: System)
    requires Steady(s)
    ensures Sound(s.db)
  {
  }

  lemma NotFine(s: System, es: seq<Event>)
    requires !AllFine(s)
    ensures !FineAlong(s, es)
  {
  }

  /** Every line that is owed is owed to the caller's own row. */
  ghost predicate OwnRows(s: System) {
    forall i, k :: 0 <= i < |s.callers| && Owes(s.callers[i], k) ==> k in s.db.rows && s.db.rows[k].id == s.callers[i].id
  }

  /** A deletion takes no row whose line is still owed. */
  ghost predicate Spares(s: System, e: Event) {
    e.Del? ==> forall i, k :: 0 <= i < |s.callers| && Owes(s.callers[i], k) ==> k in Exec(s, e).db.rows
  }

  ghost predicate AllSpare(s: System, es: seq<Event>)
    decreases |es|
  {
    es == [] || (Spares(s, es[0]) && AllSpare(Exec(s, es[0]), es[1..]))
  }

  ghost predicate CacheKept(s: System) { Steady(s) && AllFine(s) && OwnRows(s) }

  lemma WorkKeepsOwnRows(s: System, i: nat, j: nat, k: Key)
    requires Steady(s) && OwnRows(s) && i < |s.callers| && j < |s.callers| && Owes(Exec(s, Work(i)).callers[j], k)
    ensures var t := Exec(s, Work(i)); k in t.db.rows && t.db.rows[k].id == t.callers[j].id
  {
    var c := s.callers[i];
    assert CallerConsistent(s.db, c);
    AdvanceAt(s.db, c, k);
    hide Advance, Owes, CallerConsistent, SameCall, Keyed, Sized, OverviewLine;
    if i == j { NewDebt(s.db, c, k); }
  }

  lemma NewDebt(db: Db, c: Caller, k: Key)
    requires CallerConsistent(db, c) && Owes(Advance(db, c).1, k)
    ensures Advance(db, c).1.id == c.id
    ensures Owes(c, k) || (k in Advance(db, c).0.rows && Advance(db, c).0.rows[k].id == c.id)
  {
    hide OverviewLine, MaxNumber, ArticleId;
  }

  /** A statement keeps every row fine unless it deletes a row that is still owed its line. */
  lemma ExecKeepsCache(s: System, e: Event)
    requires CacheKept(s) && MayStart(s, e) && Spares(s, e)
    ensures CacheKept(Exec(s, e))
  {
    ExecSteady(s, e);
    LateLineExactly(s, e);
    assert !Clobbers(s, e) by {
      if e.Work? && e.i < |s.callers| && s.callers[e.i].pc.WriteOverview? && s.callers[e.i].groups != [] {
        assert Owes(s.callers[e.i], Key(s.callers[e.i].groups[0], s.callers[e.i].pc.at));
      }
    }
    KeepsOwnRows(s, e);
  }

  lemma KeepsOwnRows(s: System, e: Event)
    requires Steady(s) && OwnRows(s) && Spares(s, e)
    ensures OwnRows(Exec(s, e))
  {
    hide Newsgroups, ArticleId, CallerConsistent, SameCall;
    var t := Exec(s, e);
    match e {
      case Work(i) =>
        if i < |s.callers| {
          hide Advance, Owes;
          forall j, k | 0 <= j < |t.callers| && Owes(t.callers[j], k)
            ensures k in t.db.rows && t.db.rows[k].id == t.callers[j].id
          {
            WorkKeepsOwnRows(s, i, j, k);
          }
        }
      case Del(d) =>
        DeletedShrinks(s.db, d);
        hide Deleted;
      case Start(article, now) =>
        assert forall j :: 0 <= j < |s.callers| ==> t.callers[j] == s.callers[j];
    }
  }

  lemma {:induction false} CacheKeptAlways(s: System, es: seq<Event>)
    requires CacheKept(s) && Admissible(s, es) && AllSpare(s, es)
    ensures CacheKept(ExecAll(s, es))
    decreases |es|
  {
    hide CacheKept, MayStart, Spares, Exec;
    if es != [] {
      ExecKeepsCache(s, es[0]);
      CacheKeptAlways(Exec(s, es[0]), es[1..]);
    }
  }

  /** However calls and deletions interleave, if no deletion takes a row that is still owed
      its line, then once no call is at work the cache agrees with every live row. */
  lemma QuiescentAgreement(s: System, es: seq<Event>)
    requires CacheKept(s) && Admissible(s, es) && AllSpare(s, es)
    requires forall c :: c in ExecAll(s, es).callers ==> c.pc.Done? || c.pc.Failed? || c.pc.InsertMessage?
    ensures Agreement(ExecAll(s, es).db)
  {
    CacheKeptAlways(s, es);
    var t := ExecAll(s, es);
    assert forall i, k :: 0 <= i < |t.callers| ==> t.callers[i] in t.callers && !Owes(t.callers[i], k);
  }

  lemma QuiescentFromNothing(es: seq<Event>)
    requires Admissible(Nothing(), es) && AllSpare(Nothing(), es)
    requires forall c :: c in ExecAll(Nothing(), es).callers ==> c.pc.Done? || c.pc.Failed? || c.pc.InsertMessage?
    ensures Agreement(ExecAll(Nothing(), es).db)
  {
    QuiescentAgreement(Nothing(), es);
  }

  // ---- A line that comes late ----

  /** One caller's row is in place and its line is not; another has not begun. */
  lemma UpToTheLine(a: Message, b: Message, ia: string, g: string, now: int)
    requires ArticleId(a) == Some(ia) && Newsgroups(a) == [g]
    ensures var s1 := Exec(Exec(Nothing(), Start(a, now)), Start(b, now));
            Exec(Exec(Exec(Exec(s1, Work(0)), Work(0)), Work(0)), Work(0))
            == System(Db(map[ia := Stored(a, Bytes(a.body))], map[Key(g, 1) := Row(ia, now)], map[], map[]),
                      [Caller(ia, a, now, [g], WriteOverview(1, Bytes(a.body))), Call(b, now)])
  {
    hide OverviewLine, Newsgroups, ArticleId, MaxNumber;
    NoNumbers(map[], g);
    var ca, cb := Call(a, now), Call(b, now);
    var s1 := Exec(Exec(Nothing(), Start(a, now)), Start(b, now));
    assert s1 == System(Db(map[], map[], map[], map[]), [ca, cb]);
    var s2 := Exec(Exec(s1, Work(0)), Work(0));
    assert s2 == System(Db(map[ia := Stored(a, Bytes(a.body))], map[], map[], map[]), [ca.(pc := Insert(1)), cb]);
  }

  /** The other is served in full once that row has been deleted, and then the line comes. */
  lemma LineAfterReuse(db: Db, c: Caller, b: Message, ib: string, g: string, now: int)
    requires db.rows == map[] && db.messages == map[] && db.overview == map[]
    requires c.groups == [g] && c.pc.WriteOverview? && c.pc.at == 1
    requires ArticleId(b) == Some(ib) && Newsgroups(b) == [g]
    ensures var s := Exec(Exec(System(db, [c, Call(b, now)]), Work(1)), Work(1));
            var t := Exec(Exec(Exec(Exec(s, Work(1)), Work(1)), Work(1)), Work(0));
            t.db == Db(map[ib := Stored(b, Bytes(b.body))], map[Key(g, 1) := Row(ib, now)], db.groups,
                       map[Key(g, 1) := OverviewLine(1, c.article, c.pc.bytes)])
            && forall d :: d in t.callers ==> d.pc.Done?
  {
    hide OverviewLine, Newsgroups, ArticleId, MaxNumber;
    NoNumbers(map[], g);
    var cb := Call(b, now);
    var mb := Stored(b, Bytes(b.body));
    var s := Exec(Exec(System(db, [c, cb]), Work(1)), Work(1));
    assert s == System(Db(map[ib := mb], map[], db.groups, map[]), [c, cb.(pc := Insert(1))]);
    var u := Exec(Exec(Exec(s, Work(1)), Work(1)), Work(1));
    assert u.callers == [c, cb.(groups := [], pc := Done)];
    assert u.db.rows == map[Key(g, 1) := Row(ib, now)] && u.db.messages == map[ib := mb];
  }

  /** Such a line comes about: an article is deleted between its row and its line, and
      another article has taken the number and been served when the line is written. */
  lemma DeletionClobbersLine(a: Message, b: Message, ia: string, ib: string, g: string, now: int) returns (es: seq<Event>)
    requires ArticleId(a) == Some(ia) && ArticleId(b) == Some(ib) && ia != ib
    requires Newsgroups(a) == [g] == Newsgroups(b)
    requires OverviewLine(1, a, Bytes(a.body)) != OverviewLine(1, b, Bytes(b.body))
    ensures var t := ExecAll(Nothing(), es);
            (forall c :: c in t.callers ==> c.pc.Done?) && Sound(t.db) && !Agreement(t.db)
  {
    hide OverviewLine, Newsgroups, ArticleId, Advance, ExecAll;
    es := Then([], Start(a, now));
    assert ExecAll(Nothing(), []) == Nothing() by { ExecNone(); }
    es := Then(es, Start(b, now));
    es := Then(es, Work(0));
    es := Then(es, Work(0));
    es := Then(es, Work(0));
    es := Then(es, Work(0));
    UpToTheLine(a, b, ia, g, now);
    es := Then(es, Del(RowsWithId(ia)));
    es := Then(es, Del(MessageIfOrphan(ia)));
    var s := ExecAll(Nothing(), es);
    assert s.db.rows == map[] && s.db.messages == map[];
    LineAfterReuse(s.db, s.callers[0], b, ib, g, now);
    es := Then(es, Work(1));
    es := Then(es, Work(1));
    es := Then(es, Work(1));
    es := Then(es, Work(1));
    es := Then(es, Work(1));
    es := Then(es, Work(0));
    assert !CachedAt(ExecAll(Nothing(), es).db, Key(g, 1));
  }

  lemma SampleFields(id: string, bytes: nat)
    ensures exists rest :: OverviewFields(Sample(id), bytes) == "\t\t\t" + (id + rest)
  {
    var h := Sample(id).headers;
    SampleParts(id);
    SampleLacks(id);
    FieldsOf(Sample(id), bytes, id);
  }

  lemma FieldsOf(a: Message, bytes: nat, id: string)
    requires ValueOr(a.headers, "Subject") == ValueOr(a.headers, "From") == ValueOr(a.headers, "Date") == ""
    requires ValueOr(a.headers, "Message-ID") == id
    ensures exists rest :: OverviewFields(a, bytes) == "\t\t\t" + (id + rest)
  {
    hide ValueOr, Decimal, Lines;
    var refs, size, count := ValueOr(a.headers, "References"), Decimal(bytes), Decimal(|Lines(a.body)|);
    var rest := "\t" + refs + "\t" + size + "\t" + count;
    assert OverviewFields(a, bytes) == "" + "\t" + "" + "\t" + "" + "\t" + id + "\t" + refs + "\t" + size + "\t" + count;
    assert OverviewFields(a, bytes) == "\t\t\t" + (id + rest);
  }

  lemma SampleLacks(id: string)
    ensures forall name :: name in ["Subject", "From", "Date", "References"] ==> HeaderValue(Sample(id).headers, name) == None
  {
    assert Lower("References")[0] == 'r' && Lower("Newsgroups")[0] == 'n' && Lower("Message-ID")[0] == 'm';
    Unlike(id, "Subject");
    Unlike(id, "From");
    Unlike(id, "Date");
    Unlike(id, "References");
  }

  lemma Unlike(id: string, name: string)
    requires !EqIgnoreCase("Newsgroups", name) && !EqIgnoreCase("Message-ID", name)
    ensures HeaderValue(Sample(id).headers, name) == None
  {
    var hs := Sample(id).headers;
    assert hs[1..] == [Header("Message-ID", id)] && hs[1..][1..] == [];
    assert HeaderValue(hs[1..][1..], name) == None;
    assert HeaderValue(hs[1..], name) == None;
  }

  /** For instance with these two articles. */
  lemma SampleLineClobbered(now: int) returns (es: seq<Event>)
    ensures var t := ExecAll(Nothing(), es);
            (forall c :: c in t.callers ==> c.pc.Done?) && Sound(t.db) && !Agreement(t.db)
  {
    var a, b := Sample("<a@b>"), Sample("<b@b>");
    SampleParts("<a@b>");
    SampleParts("<b@b>");
    SampleFields("<a@b>", Bytes(a.body));
    SampleFields("<b@b>", Bytes(b.body));
    hide OverviewFields, Sample, Newsgroups, ArticleId, OverviewLine;
    var r :| OverviewFields(a, Bytes(a.body)) == "\t\t\t" + ("<a@b>" + r);
    var q :| OverviewFields(b, Bytes(b.body)) == "\t\t\t" + ("<b@b>" + q);
    assert ("\t\t\t" + ("<a@b>" + r))[4] == 'a' && ("\t\t\t" + ("<b@b>" + q))[4] == 'b';
    SameLine(1, a, Bytes(a.body), b, Bytes(b.body));
    es := DeletionClobbersLine(a, b, "<a@b>", "<b@b>", "g", now);
  }
}
