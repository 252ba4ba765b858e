/** Periodic synchronisation with a peer (src/peers.rs): every matching group is listed
    for what was inserted since the last synchronisation, and the time at the end is kept. */
module PeerSync {
  import opened Text
  import opened Wire
  import opened Store
  import opened StoreRuns
  import opened Flood

  // ---- One synchronisation ----

  datatype Stats = Stats(groupsProcessed: nat, sent: nat, skipped: nat, errors: nat)

  predicate After(since: Option<int>, at: int) { since.None? || at > since.value }

  /** The group's rows inserted after the last synchronisation; on the first, the whole group. */
  function RowsSince(rows: map<Key, Row>, group: string, since: Option<int>): set<Key> {
    set k | k in rows && k.group == group && After(since, rows[k].insertedAt)
  }

  function IdsSince(rows: map<Key, Row>, group: string, since: Option<int>): set<string> {
    set k | k in RowsSince(rows, group, since) :: rows[k].id
  }

  /** What is sent of a stored article: nothing if its Path names the peer. */
  function ToPeer(article: Message, peer: string, site: string): Option<Message> {
    if ShouldSkip(article, peer) then None else Some(article.(headers := Prefixed(article.headers, site)))
  }

  /** The article stored under an id is one that this synchronisation sends as `sent`. */
  ghost predicate Sends(messages: map<string, Stored>, ids: set<string>, peer: string, site: string, sent: Message) {
    exists id :: id in ids && id in messages && ToPeer(messages[id].article, peer, site) == Some(sent)
  }

  /** The fetched articles that are not sent. */
  function Named(messages: map<string, Stored>, ids: set<string>, peer: string): set<string> {
    set id | id in ids && id in messages && ShouldSkip(messages[id].article, peer)
  }

  lemma OneMoreNamed(messages: map<string, Stored>, ids: set<string>, id: string, peer: string)
    requires id in messages && id !in ids
    ensures |Named(messages, ids + {id}, peer)|
         == |Named(messages, ids, peer)| + if ShouldSkip(messages[id].article, peer) then 1 else 0
  {
    assert Named(messages, ids + {id}, peer)
        == Named(messages, ids, peer) + if ShouldSkip(messages[id].article, peer) then {id} else {};
  }

  lemma OneMoreSent(messages: map<string, Stored>, ids: set<string>, id: string, peer: string, site: string, m: Message)
    requires id in messages
    ensures Sends(messages, ids + {id}, peer, site, m) <==>
            Sends(messages, ids, peer, site, m) || ToPeer(messages[id].article, peer, site) == Some(m)
  {
    hide ShouldSkip, Prefixed, ToPeer;
    if ToPeer(messages[id].article, peer, site) == Some(m) { assert id in ids + {id}; }
  }

  lemma OnlyStored(messages: map<string, Stored>, ids: set<string>, peer: string, site: string)
    ensures Named(messages, ids * messages.Keys, peer) == Named(messages, ids, peer)
    ensures forall m :: Sends(messages, ids * messages.Keys, peer, site, m) <==> Sends(messages, ids, peer, site, m)
  {
    hide ShouldSkip, Prefixed, ToPeer;
    forall m
      ensures Sends(messages, ids, peer, site, m) ==> Sends(messages, ids * messages.Keys, peer, site, m)
    {
      if id :| id in ids && id in messages && ToPeer(messages[id].article, peer, site) == Some(m) {
        assert id in ids * messages.Keys;
      }
    }
  }

  /** Sends a group's articles; a transfer that fails is counted and not tried again. */
  method ProcessGroupArticles(messages: map<string, Stored>, ids: set<string>, peer: string, site: string,
                              transfers: Message -> bool)
      returns (outbox: seq<Message>, stats: Stats)
    ensures forall m :: m in outbox <==> Sends(messages, ids, peer, site, m)
    ensures stats.sent + stats.errors == |outbox| && stats.skipped == |Named(messages, ids, peer)|
    ensures stats.sent + stats.skipped + stats.errors == |ids * messages.Keys| && stats.groupsProcessed == 0
  {
    hide ShouldSkip, Prefixed, Sends, Named;
    outbox, stats := [], Stats(0, 0, 0, 0);
    var left := ids * messages.Keys;
    ghost var done: set<string> := {};
    NoneSent(messages, peer, site);
    while left != {}
      invariant left !! done && left + done == ids * messages.Keys
      invariant forall m :: m in outbox <==> Sends(messages, done, peer, site, m)
      invariant stats.sent + stats.errors == |outbox| && stats.skipped == |Named(messages, done, peer)|
      invariant stats.sent + stats.skipped + stats.errors == |done| && stats.groupsProcessed == 0
      decreases left
    {
      var id :| id in left;
      assert id in messages && id !in done;
      var article := messages[id].article;
      OneMoreNamed(messages, done, id, peer);
      ghost var sentBefore, doneBefore := outbox, done;
      left, done := left - {id}, done + {id};
      if ShouldSkip(article, peer) {
        stats := stats.(skipped := stats.skipped + 1);
      } else {
        var peerArticle := CreatePeerArticle(article, site);
        outbox := outbox + [peerArticle];
        if transfers(peerArticle) {
          stats := stats.(sent := stats.sent + 1);
        } else {
          stats := stats.(errors := stats.errors + 1);
        }
      }
      forall m
        ensures m in outbox <==> Sends(messages, done, peer, site, m)
      {
        OneMoreSent(messages, doneBefore, id, peer, site, m);
      }
    }
    assert done == ids * messages.Keys;
    OnlyStored(messages, ids, peer, site);
  }

  lemma NoneSent(messages: map<string, Stored>, peer: string, site: string)
    ensures Named(messages, {}, peer) == {}
    ensures forall m :: !Sends(messages, {}, peer, site, m)
  {
  }

  /** An operation that comes in between. */
  method Operation(store: ArticleStore, op: Op)
    modifies store
    ensures store.Contents() == Apply(old(store.Contents()), op)
  {
    match op {
      case StoreOp(article, now) =>
        var _ := store.StoreArticle(article, now);
      case DeleteOp(id) => store.DeleteArticleById(id);
      case RemoveOp(names) =>
        for i := 0 to |names|
          invariant WithoutGroups(store.Contents(), names[i..]) == WithoutGroups(old(store.Contents()), names)
        {
          assert names[i..][1..] == names[i + 1..];
          store.RemoveGroup(names[i]);
        }
      case PurgeOp(group, before) => store.PurgeGroupBefore(group, before);
      case PurgeOrphansOp => store.PurgeOrphanMessages();
      case AddGroupOp(name, info) =>
        if name !in store.groups {
          store.groups := store.groups[name := info];
        }
    }
  }

  method Operations(store: ArticleStore, ops: seq<Op>)
    modifies store
    ensures store.Contents() == RunOps(old(store.Contents()), ops)
  {
    for i := 0 to |ops|
      invariant RunOps(store.Contents(), ops[i..]) == RunOps(old(store.Contents()), ops)
    {
      assert ops[i..][1..] == ops[i + 1..];
      Operation(store, ops[i]);
    }
  }

  /** The tables as they are when the groups' turns come, after what comes in before each. */
  ghost function AtTurn(db: Db, between: seq<seq<Op>>, n: nat): Db
    decreases n
  {
    if n == 0 then db
    else RunOps(AtTurn(db, between, n - 1), if n <= |between| then between[n - 1] else [])
  }

  /** At the group's turn: one of its rows that is younger than the last synchronisation, or any
      of them on the first, has an article that does not name the peer and is sent as `m`. */
  ghost predicate SendsAt(db: Db, group: string, since: Option<int>, peer: string, site: string, m: Message) {
    exists k :: k in db.rows && k.group == group && (since == None || since.value < db.rows[k].insertedAt)
                && db.rows[k].id in db.messages
                && var article := db.messages[db.rows[k].id].article;
                   !ShouldSkip(article, peer) && m == article.(headers := Prefixed(article.headers, site))
  }

  lemma SendsAtExactly(db: Db, group: string, since: Option<int>, peer: string, site: string, m: Message)
    ensures SendsAt(db, group, since, peer, site, m) <==>
            Sends(db.messages, IdsSince(db.rows, group, since), peer, site, m)
  {
    hide ShouldSkip, Prefixed;
    if SendsAt(db, group, since, peer, site, m) {
      var k :| k in db.rows && k.group == group && (since == None || since.value < db.rows[k].insertedAt)
               && db.rows[k].id in db.messages
               && var article := db.messages[db.rows[k].id].article;
                  !ShouldSkip(article, peer) && m == article.(headers := Prefixed(article.headers, site));
      assert k in RowsSince(db.rows, group, since);
    }
  }

  lemma NextTurn(db: Db, between: seq<seq<Op>>, n: nat)
    ensures AtTurn(db, between, n + 1) == RunOps(AtTurn(db, between, n), if n < |between| then between[n] else [])
  {
  }

  /** One of the first `i` groups sends the article at its turn. */
  ghost predicate SentInTurns(db: Db, between: seq<seq<Op>>, groups: seq<string>, matches: string -> bool, since: Option<int>,
                              peer: string, site: string, i: nat, m: Message)
    requires i <= |groups|
  {
    exists n :: 0 <= n < i && matches(groups[n]) && SendsAt(AtTurn(db, between, n + 1), groups[n], since, peer, site, m)
  }

  lemma NoTurns(db: Db, between: seq<seq<Op>>, groups: seq<string>, matches: string -> bool, since: Option<int>,
                peer: string, site: string)
    ensures forall m :: !SentInTurns(db, between, groups, matches, since, peer, site, 0, m)
  {
  }

  lemma OneMoreTurn(db: Db, between: seq<seq<Op>>, groups: seq<string>, matches: string -> bool, since: Option<int>,
                    peer: string, site: string, i: nat)
    requires i < |groups|
    ensures forall m :: SentInTurns(db, between, groups, matches, since, peer, site, i + 1, m) <==>
                          SentInTurns(db, between, groups, matches, since, peer, site, i, m)
                          || (matches(groups[i]) && SendsAt(AtTurn(db, between, i + 1), groups[i], since, peer, site, m))
  {
    hide SendsAt, AtTurn;
    forall m
      ensures SentInTurns(db, between, groups, matches, since, peer, site, i + 1, m) <==>
              SentInTurns(db, between, groups, matches, since, peer, site, i, m)
              || (matches(groups[i]) && SendsAt(AtTurn(db, between, i + 1), groups[i], since, peer, site, m))
    {
    }
  }

  /** A synchronisation sends exactly the articles of matching groups that, when the group's turn
      comes, were inserted since the last one and do not name the peer, each with this site at the
      head of its Path. `between` is what other tasks do before each group's turn. */
  method SyncPeerOnce(store: ArticleStore, since: Option<int>, matches: string -> bool, peer: string, site: string,
                      transfers: Message -> bool, between: seq<seq<Op>>)
      returns (outbox: seq<Message>, stats: Stats, groups: seq<string>)
    modifies store
    ensures Sorted(groups) && forall g :: g in groups <==> g in old(store.groups)
    ensures store.Contents() == AtTurn(old(store.Contents()), between, |groups|)
    ensures forall m :: m in outbox <==>
                        SentInTurns(old(store.Contents()), between, groups, matches, since, peer, site, |groups|, m)
    ensures stats.sent + stats.errors == |outbox|
    ensures stats.groupsProcessed == |set g | g in old(store.groups) && matches(g)|
  {
    ghost var db := store.Contents();
    outbox, stats := [], Stats(0, 0, 0, 0);
    groups := store.ListGroups();
    ghost var done: set<string> := {};
    NoTurns(db, between, groups, matches, since, peer, site);
    assert AtTurn(db, between, 0) == db && groups[..0] == [] && groups[..|groups|] == groups;
    hide *;
    for i := 0 to |groups|
      invariant store.Contents() == AtTurn(db, between, i)
      invariant forall g :: g in done <==> g in groups[..i] && matches(g)
      invariant forall m :: m in outbox <==> SentInTurns(db, between, groups, matches, since, peer, site, i, m)
      invariant stats.sent + stats.errors == |outbox| && stats.groupsProcessed == |done|
    {
      OneMoreTurn(db, between, groups, matches, since, peer, site, i);
      NextTurn(db, between, i);
      assert groups[..i + 1] == groups[..i] + [groups[i]];
      Operations(store, if i < |between| then between[i] else []);
      if matches(groups[i]) {
        done := done + {groups[i]};
        outbox, stats := SyncGroup(store, groups[i], since, peer, site, transfers, outbox, stats);
      }
    }
    assert done == set g | g in db.groups && matches(g);
  }

  /** One group's turn. */
  method SyncGroup(store: ArticleStore, group: string, since: Option<int>, peer: string, site: string,
                   transfers: Message -> bool, sent: seq<Message>, total: Stats)
      returns (outbox: seq<Message>, stats: Stats)
    requires total.sent + total.errors == |sent|
    ensures forall m :: m in outbox <==> m in sent || SendsAt(store.Contents(), group, since, peer, site, m)
    ensures stats.sent + stats.errors == |outbox| && stats.groupsProcessed == total.groupsProcessed + 1
  {
    hide Sends, IdsSince, SendsAt;
    var articleIds := IdsSince(store.rows, group, since);
    var more, groupStats := ProcessGroupArticles(store.messages, articleIds, peer, site, transfers);
    forall m
      ensures m in more <==> SendsAt(store.Contents(), group, since, peer, site, m)
    {
      SendsAtExactly(store.Contents(), group, since, peer, site, m);
    }
    outbox := sent + more;
    stats := Stats(total.groupsProcessed + 1, total.sent + groupStats.sent,
                   total.skipped + groupStats.skipped, total.errors + groupStats.errors);
  }

  // ---- Runs of synchronisations among store operations ----

  /** The store, the time of the last synchronisation and the rows whose article was offered since. */
  datatype Peering = Peering(db: Db, since: Option<int>, offered: set<(Key, Row)>)

  datatype Event =
    | Operate(op: Op)
    | ListGroup(group: string)
    | Finish(now: int)

  /** A recorded time of zero reads back as none. */
  function LastSync(now: int): Option<int> { if now == 0 then None else Some(now) }

  ghost function Exec(s: Peering, e: Event): Peering {
    match e
    case Operate(op) => s.(db := Apply(s.db, op))
    case ListGroup(group) =>
      s.(offered := s.offered + set k | k in RowsSince(s.db.rows, group, s.since) :: (k, s.db.rows[k]))
    case Finish(now) => s.(since := LastSync(now))
  }

  ghost function ExecAll(s: Peering, events: seq<Event>): Peering
    decreases |events|
  {
    if events == [] then s else ExecAll(Exec(s, events[0]), events[1..])
  }

  /** The row is there throughout. */
  ghost predicate Stays(s: Peering, events: seq<Event>, k: Key, row: Row)
    decreases |events|
  {
    k in s.db.rows && s.db.rows[k] == row && (events != [] ==> Stays(Exec(s, events[0]), events[1..], k, row))
  }

  /** Synchronisations end after the row was inserted. */
  predicate EndAfter(events: seq<Event>, at: int) {
    forall e :: e in events && e.Finish? ==> e.now >= at && e.now != 0
  }

  predicate ListedBeforeFinish(events: seq<Event>, group: string) {
    events != [] && !events[0].Finish?
    && (events[0] == ListGroup(group) || ListedBeforeFinish(events[1..], group))
  }

  /** A row no younger than the last synchronisation is never offered again, deleted or not. */
  lemma {:induction false} NeverOffered(s: Peering, events: seq<Event>, k: Key, row: Row)
    requires (k, row) !in s.offered && s.since.Some? && s.since.value >= row.insertedAt
    requires EndAfter(events, row.insertedAt)
    ensures (k, row) !in ExecAll(s, events).offered
    decreases |events|
  {
    if events != [] {
      assert events[0] in events;
      NeverOffered(Exec(s, events[0]), events[1..], k, row);
    }
  }

  lemma {:induction false} OfferedStays(s: Peering, events: seq<Event>)
    ensures s.offered <= ExecAll(s, events).offered
    decreases |events|
  {
    if events != [] { OfferedStays(Exec(s, events[0]), events[1..]); }
  }

  /** The group is listed while the last end lies before the time. */
  predicate ListedWhileNew(since: Option<int>, events: seq<Event>, group: string, at: int)
    decreases |events|
  {
    events != []
    && ((events[0] == ListGroup(group) && After(since, at))
        || ListedWhileNew(if events[0].Finish? then LastSync(events[0].now) else since, events[1..], group, at))
  }

  /** Whatever the clock does: a row is offered exactly when its group is listed while the last
      recorded end lies before its insertion. */
  lemma {:induction false} OfferedWhileNew(s: Peering, events: seq<Event>, k: Key, row: Row)
    requires (k, row) !in s.offered && Stays(s, events, k, row)
    ensures (k, row) in ExecAll(s, events).offered <==> ListedWhileNew(s.since, events, k.group, row.insertedAt)
    decreases |events|
  {
    if events != [] {
      var next := Exec(s, events[0]);
      if events[0] == ListGroup(k.group) && After(s.since, row.insertedAt) {
        assert k in RowsSince(s.db.rows, k.group, s.since);
        OfferedStays(next, events[1..]);
      } else {
        OfferedWhileNew(next, events[1..], k, row);
      }
    }
  }

  lemma {:induction false} NeverNew(since: Option<int>, events: seq<Event>, group: string, at: int)
    requires !After(since, at) && EndAfter(events, at)
    ensures !ListedWhileNew(since, events, group, at)
    decreases |events|
  {
    if events != [] {
      assert events[0] in events;
      NeverNew(if events[0].Finish? then LastSync(events[0].now) else since, events[1..], group, at);
    }
  }

  lemma {:induction false} NewUntilFinish(since: Option<int>, events: seq<Event>, group: string, at: int)
    requires After(since, at) && EndAfter(events, at)
    ensures ListedWhileNew(since, events, group, at) <==> ListedBeforeFinish(events, group)
    decreases |events|
  {
    if events != [] {
      assert events[0] in events;
      if events[0].Finish? {
        NeverNew(LastSync(events[0].now), events[1..], group, at);
      } else {
        NewUntilFinish(since, events[1..], group, at);
      }
    }
  }

  /** When synchronisations end no earlier than the row was inserted, it is offered to the peer,
      over any number of them, exactly when it is younger than the last end and its group is
      listed before the next. */
  lemma OfferedExactly(s: Peering, events: seq<Event>, k: Key, row: Row)
    requires (k, row) !in s.offered && Stays(s, events, k, row) && EndAfter(events, row.insertedAt)
    ensures (k, row) in ExecAll(s, events).offered
            <==> After(s.since, row.insertedAt) && ListedBeforeFinish(events, k.group)
  {
    OfferedWhileNew(s, events, k, row);
    if After(s.since, row.insertedAt) {
      NewUntilFinish(s.since, events, k.group, row.insertedAt);
    } else {
      NeverNew(s.since, events, k.group, row.insertedAt);
    }
  }

  /** For instance, from the empty store: an article that comes in between the listing of its
      group and the end of the first synchronisation is in the store and is not offered then,
      nor by anything that follows. */
  lemma StoredBehindTheListing(now: int, later: seq<Event>)
    requires now != 0 && EndAfter(later, now)
    ensures var s := ExecAll(Peering(Empty(), None, {}),
                             [ListGroup("g"), Operate(StoreOp(Sample("<a@b>"), now)), Finish(now)]);
            var k, row := Key("g", 1), Row("<a@b>", now);
            k in s.db.rows && s.db.rows[k] == row && (k, row) !in s.offered && (k, row) !in ExecAll(s, later).offered
  {
    var start, a := Peering(Empty(), None, {}), Sample("<a@b>");
    var e, f, g := ListGroup("g"), Operate(StoreOp(a, now)), Finish(now);
    SampleParts("<a@b>");
    FirstStore(a, now, "<a@b>", "g");
    hide Sample, AfterStore, OverviewLine;
    assert [e, f, g][1..] == [f, g] && [f, g][1..] == [g] && [g][1..] == [];
    var s := Exec(Exec(Exec(start, e), f), g);
    assert ExecAll(Exec(start, e), [f, g]) == ExecAll(Exec(Exec(start, e), f), [g]) == ExecAll(s, []) == s;
    assert s.offered == {};
    NeverOffered(s, later, Key("g", 1), Row("<a@b>", now));
  }

  /** Nor is one that comes in after the end, in the same second, although its group is listed
      before the next end. */
  lemma StoredInTheSameSecond(now: int, later: seq<Event>)
    requires now != 0 && EndAfter(later, now)
    ensures var s := ExecAll(Peering(Empty(), None, {}),
                             [ListGroup("g"), Finish(now), Operate(StoreOp(Sample("<a@b>"), now)), ListGroup("g")]);
            var k, row := Key("g", 1), Row("<a@b>", now);
            k in s.db.rows && s.db.rows[k] == row && (k, row) !in s.offered && (k, row) !in ExecAll(s, later).offered
  {
    var start, a := Peering(Empty(), None, {}), Sample("<a@b>");
    var e, f, g := ListGroup("g"), Finish(now), Operate(StoreOp(a, now));
    SampleParts("<a@b>");
    FirstStore(a, now, "<a@b>", "g");
    hide Sample, AfterStore, OverviewLine;
    var s := Exec(Exec(Exec(Exec(start, e), f), g), e);
    assert [e, f, g, e][1..] == [f, g, e] && [f, g, e][1..] == [g, e] && [g, e][1..] == [e] && [e][1..] == [];
    assert ExecAll(start, [e, f, g, e]) == ExecAll(Exec(start, e), [f, g, e]);
    assert ExecAll(Exec(start, e), [f, g, e]) == ExecAll(Exec(Exec(start, e), f), [g, e]);
    assert ExecAll(Exec(Exec(start, e), f), [g, e]) == ExecAll(Exec(Exec(Exec(start, e), f), g), [e]);
    assert ExecAll(Exec(Exec(Exec(start, e), f), g), [e]) == ExecAll(s, []) == s;
    assert s.offered == {};
    NeverOffered(s, later, Key("g", 1), Row("<a@b>", now));
  }
}
