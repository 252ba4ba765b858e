/** Expiry (src/retention.rs): group by group, rows older than the group's retention
    period are purged and articles whose Expires time has passed are deleted. */
module Retention {
  import opened Text
  import opened Wire
  import opened Store

  /** What the cleanup is given: a retention period in seconds for a group, and an
      article's Expires time; None when there is none or it does not parse. */
  datatype Policy = Policy(period: string -> Option<int>, expires: Message -> Option<int>, now: int)

  /** The time before which the group's rows are too old. */
  function Cutoff(p: Policy, group: string): Option<int> {
    var r := p.period(group);
    if r.Some? && r.value > 0 then Some(p.now - r.value) else None
  }

  predicate TooOld(p: Policy, k: Key, row: Row) {
    Cutoff(p, k.group).Some? && row.insertedAt < Cutoff(p, k.group).value
  }

  predicate PastExpiry(p: Policy, article: Message) {
    p.expires(article).Some? && p.expires(article).value <= p.now
  }

  predicate Expired(p: Policy, db: Db, id: string) { id in db.messages && PastExpiry(p, db.messages[id].article) }

  // ---- Closed form ----

  /** Messages that expire through a row of one of the groups which is not too old. */
  function ExpiredIn(p: Policy, db: Db, listed: set<string>): set<string> {
    set k | k in db.rows && k.group in listed && !TooOld(p, k, db.rows[k]) && Expired(p, db, db.rows[k].id)
      :: db.rows[k].id
  }

  function Purged(p: Policy, db: Db, listed: set<string>): set<Key> {
    set k | k in db.rows && k.group in listed && TooOld(p, k, db.rows[k])
  }

  /** The store without some messages, and without their rows. */
  function WithoutIds(db: Db, ids: set<string>): Db {
    db.(rows := map k | k in db.rows && db.rows[k].id !in ids :: db.rows[k],
        messages := map id | id in db.messages && id !in ids :: db.messages[id])
  }

  /** What the loops leave after the groups of `listed`. */
  function Swept(p: Policy, db: Db, listed: set<string>): Db {
    WithoutIds(DeleteRows(db, Purged(p, db, listed)), ExpiredIn(p, db, listed))
  }

  function Cleaned(p: Policy, db: Db, listed: set<string>): Db { DeleteOrphans(Swept(p, db, listed)) }

  // ---- The loops ----

  method CleanupGroupByRetention(store: ArticleStore, p: Policy, group: string)
    modifies store
    ensures store.Contents() == SweptGroup(p, old(store.Contents()), group)
  {
    var retention := p.period(group);
    if retention.Some? {
      if retention.value > 0 {
        assert RowsBefore(store.Contents(), group, p.now - retention.value) == Purged(p, store.Contents(), {group});
        store.PurgeGroupBefore(group, p.now - retention.value);
        return;
      }
    }
    NothingPurged(p, store.Contents(), group);
  }

  lemma NothingPurged(p: Policy, db: Db, group: string)
    requires Cutoff(p, group).None?
    ensures SweptGroup(p, db, group) == db
  {
    assert Purged(p, db, {group}) == {};
  }

  /** The expired messages among those listed so far. */
  function ExpiredOf(p: Policy, db: Db, ids: seq<string>): set<string> {
    set id | id in ids && Expired(p, db, id)
  }

  lemma DeleteOneMore(db: Db, ids: set<string>, id: string)
    ensures WithoutArticle(WithoutIds(db, ids), id) == WithoutIds(db, ids + {id})
  {
    var before := WithoutIds(db, ids);
    var rows := DeleteRows(before, RowsOfId(before, id));
    assert !Referenced(rows, id);
  }

  lemma ExpiredOneMore(p: Policy, db: Db, ids: seq<string>, i: nat, expired: bool)
    requires i < |ids| && (expired <==> Expired(p, db, ids[i]) && ids[i] !in ExpiredOf(p, db, ids[..i]))
    ensures var gone := ExpiredOf(p, db, ids[..i]);
            ExpiredOf(p, db, ids[..i + 1]) == (if expired then gone + {ids[i]} else gone)
            && |ExpiredOf(p, db, ids[..i + 1])| == |gone| + if expired then 1 else 0
  {
    assert forall id :: id in ids[..i + 1] <==> id in ids[..i] || id == ids[i];
    var gone := ExpiredOf(p, db, ids[..i]);
    assert ExpiredOf(p, db, ids[..i + 1]) == if expired then gone + {ids[i]} else gone;
  }

  lemma StillThere(p: Policy, db: Db, gone: set<string>, id: string)
    ensures id in WithoutIds(db, gone).messages <==> id in db.messages && id !in gone
    ensures Expired(p, WithoutIds(db, gone), id) <==> Expired(p, db, id) && id !in gone
  {
  }

  method CleanupGroupByExpiresHeader(store: ArticleStore, p: Policy, group: string) returns (expiredCount: nat)
    modifies store
    ensures var before := old(store.Contents()); var gone := ExpiredOf(p, before, IdsInGroup(before, group));
            store.Contents() == WithoutIds(before, gone) && expiredCount == |gone|
  {
    var ids := store.ListArticleIds(group);
    expiredCount := DeleteExpired(store, p, ids);
  }

  method DeleteExpired(store: ArticleStore, p: Policy, ids: seq<string>) returns (expiredCount: nat)
    modifies store
    ensures store.Contents() == WithoutIds(old(store.Contents()), ExpiredOf(p, old(store.Contents()), ids))
    ensures expiredCount == |ExpiredOf(p, old(store.Contents()), ids)|
  {
    ghost var before := store.Contents();
    expiredCount := 0;
    assert WithoutIds(before, {}) == before && ExpiredOf(p, before, []) == {};
    assert ids[..0] == [] && ids[..|ids|] == ids;
    hide *;
    for i := 0 to |ids|
      invariant store.Contents() == WithoutIds(before, ExpiredOf(p, before, ids[..i]))
      invariant expiredCount == |ExpiredOf(p, before, ids[..i])|
    {
      ghost var gone := ExpiredOf(p, before, ids[..i]);
      StillThere(p, before, gone, ids[i]);
      var expired := DeleteIfExpired(store, p, ids[i]);
      ExpiredOneMore(p, before, ids, i, expired);
      if expired {
        DeleteOneMore(before, gone, ids[i]);
        expiredCount := expiredCount + 1;
      }
    }
  }

  /** The body of the loop: an article that is no longer there is passed over. */
  method DeleteIfExpired(store: ArticleStore, p: Policy, id: string) returns (expired: bool)
    modifies store
    ensures expired <==> Expired(p, old(store.Contents()), id)
    ensures store.Contents() == if expired then WithoutArticle(old(store.Contents()), id) else old(store.Contents())
  {
    var article := store.GetArticleById(id);
    expired := false;
    if article.Some? {
      var time := p.expires(article.value);
      if time.Some? && time.value <= p.now {
        store.DeleteArticleById(id);
        expired := true;
      }
    }
  }

  /** The rows of a group that would be found and not too old, by message. */
  ghost predicate FreshIn(p: Policy, db: Db, group: string, id: string) {
    exists k :: k in db.rows && k.group == group && !TooOld(p, k, db.rows[k]) && db.rows[k].id == id
  }

  function SweptGroup(p: Policy, db: Db, group: string): Db { DeleteRows(db, Purged(p, db, {group})) }

  lemma GoneExactly(p: Policy, db: Db, group: string, id: string)
    ensures var purged := SweptGroup(p, db, group);
            id in ExpiredOf(p, purged, IdsInGroup(purged, group)) <==> Expired(p, db, id) && FreshIn(p, db, group, id)
  {
    var purged := SweptGroup(p, db, group);
    IdsInGroupExact(purged, group, id);
    if FreshIn(p, db, group, id) {
      var k :| k in db.rows && k.group == group && !TooOld(p, k, db.rows[k]) && db.rows[k].id == id;
      assert k == Key(group, k.number) && k in purged.rows;
    }
  }

  lemma FreshAfterSweep(p: Policy, db: Db, listed: set<string>, group: string, id: string)
    ensures var done := ExpiredIn(p, db, listed);
            Expired(p, Swept(p, db, listed), id) && FreshIn(p, Swept(p, db, listed), group, id)
            <==> id !in done && Expired(p, db, id) && FreshIn(p, db, group, id)
  {
    var swept := Swept(p, db, listed);
    if id !in ExpiredIn(p, db, listed) && FreshIn(p, db, group, id) {
      var k :| k in db.rows && k.group == group && !TooOld(p, k, db.rows[k]) && db.rows[k].id == id;
      assert k in swept.rows;
    }
  }

  lemma ExpiredInMore(p: Policy, db: Db, listed: set<string>, group: string, id: string)
    ensures id in ExpiredIn(p, db, listed + {group})
            <==> id in ExpiredIn(p, db, listed) || (Expired(p, db, id) && FreshIn(p, db, group, id))
  {
    if id in ExpiredIn(p, db, listed) {
      var k :| k in db.rows && k.group in listed && !TooOld(p, k, db.rows[k]) && db.rows[k].id == id;
      assert k.group in listed + {group};
    }
    if Expired(p, db, id) && FreshIn(p, db, group, id) {
      var k :| k in db.rows && k.group == group && !TooOld(p, k, db.rows[k]) && db.rows[k].id == id;
      assert k.group in listed + {group};
    }
  }

  lemma SweptCompose(p: Policy, db: Db, listed: set<string>, group: string, done: set<string>, gone: set<string>)
    ensures WithoutIds(SweptGroup(p, WithoutIds(DeleteRows(db, Purged(p, db, listed)), done), group), gone)
         == WithoutIds(DeleteRows(db, Purged(p, db, listed + {group})), done + gone)
  {
  }

  /** One group more. */
  lemma SweepOneMore(p: Policy, db: Db, listed: set<string>, group: string)
    ensures var purged := SweptGroup(p, Swept(p, db, listed), group);
            var gone := ExpiredOf(p, purged, IdsInGroup(purged, group));
            WithoutIds(purged, gone) == Swept(p, db, listed + {group})
            && ExpiredIn(p, db, listed + {group}) == ExpiredIn(p, db, listed) + gone
            && gone !! ExpiredIn(p, db, listed)
  {
    var done := ExpiredIn(p, db, listed);
    var purged := SweptGroup(p, Swept(p, db, listed), group);
    var gone := ExpiredOf(p, purged, IdsInGroup(purged, group));
    SweptCompose(p, db, listed, group, done, gone);
    hide ExpiredOf, ExpiredIn, IdsInGroup, WithoutIds, SweptGroup, FreshIn, Expired;
    forall id
      ensures id in gone ==> id !in done
      ensures id in ExpiredIn(p, db, listed + {group}) <==> id in done || id in gone
    {
      GoneExactly(p, Swept(p, db, listed), group, id);
      FreshAfterSweep(p, db, listed, group, id);
      ExpiredInMore(p, db, listed, group, id);
    }
    assert ExpiredIn(p, db, listed + {group}) == done + gone;
  }

  lemma SweptNothing(p: Policy, db: Db)
    ensures Swept(p, db, {}) == db && ExpiredIn(p, db, {}) == {}
  {
    assert Purged(p, db, {}) == {} && ExpiredIn(p, db, {}) == {};
    assert DeleteRows(db, {}) == db && WithoutIds(db, {}) == db;
  }

  method CleanupExpiredArticles(store: ArticleStore, p: Policy) returns (groupsProcessed: nat, totalDeleted: nat)
    modifies store
    ensures var before := old(store.Contents());
            store.Contents() == Cleaned(p, before, before.groups.Keys)
            && groupsProcessed == |before.groups| && totalDeleted == |ExpiredIn(p, before, before.groups.Keys)|
  {
    ghost var before := store.Contents();
    var groups := store.ListGroups();
    groupsProcessed, totalDeleted := CleanupGroups(store, p, groups);
    SameMembers(groups, before.groups.Keys);
    store.PurgeOrphanMessages();
  }

  lemma SameMembers(names: seq<string>, s: set<string>)
    requires forall g :: g in names <==> g in s
    requires forall i, j :: 0 <= i < j < |names| ==> names[i] != names[j]
    ensures (set g | g in names) == s && |names| == |s|
    decreases |names|
  {
    if names != [] {
      var last := |names| - 1;
      assert forall g :: g in names <==> g in names[..last] || g == names[last];
      SameMembers(names[..last], s - {names[last]});
      assert names[last] in s;
    }
  }

  /** The outer loop. */
  method CleanupGroups(store: ArticleStore, p: Policy, groups: seq<string>) returns (groupsProcessed: nat, totalDeleted: nat)
    modifies store
    ensures var before, listed := old(store.Contents()), set g | g in groups;
            store.Contents() == Swept(p, before, listed)
            && groupsProcessed == |groups| && totalDeleted == |ExpiredIn(p, before, listed)|
  {
    ghost var before := store.Contents();
    groupsProcessed, totalDeleted := 0, 0;
    SweptNothing(p, before);
    ghost var listed: set<string> := {};
    hide *;
    for i := 0 to |groups|
      invariant groupsProcessed == i
      invariant listed == set g | g in groups[..i]
      invariant store.Contents() == Swept(p, before, listed)
      invariant totalDeleted == |ExpiredIn(p, before, listed)|
    {
      var deleted := CleanupGroup(store, p, before, listed, groups[i]);
      totalDeleted := totalDeleted + deleted;
      groupsProcessed := groupsProcessed + 1;
      assert groups[..i + 1] == groups[..i] + [groups[i]];
      listed := listed + {groups[i]};
    }
    assert groups[..|groups|] == groups;
  }

  /** One pass of the outer loop. */
  method CleanupGroup(store: ArticleStore, p: Policy, ghost before: Db, ghost listed: set<string>, group: string)
    returns (deleted: nat)
    requires store.Contents() == Swept(p, before, listed)
    modifies store
    ensures store.Contents() == Swept(p, before, listed + {group})
    ensures |ExpiredIn(p, before, listed + {group})| == |ExpiredIn(p, before, listed)| + deleted
  {
    hide *;
    SweepOneMore(p, before, listed, group);
    CleanupGroupByRetention(store, p, group);
    deleted := CleanupGroupByExpiresHeader(store, p, group);
  }

  // ---- What the closed form means ----

  /** A row is kept unless its group has a period, of positive length, that has passed since the
      row was inserted, or its article's Expires time has come. */
  predicate Stays(p: Policy, db: Db, k: Key)
    requires k in db.rows
  {
    var age, id := p.now - db.rows[k].insertedAt, db.rows[k].id;
    (match p.period(k.group) case None => true case Some(seconds) => seconds <= 0 || age <= seconds)
    && (id in db.messages ==> match p.expires(db.messages[id].article) case None => true case Some(time) => p.now < time)
  }

  /** When every row's group is listed: the rows that stay, and exactly the messages those rows
      refer to. */
  lemma CleanedExactly(p: Policy, db: Db, listed: set<string>, k: Key, id: string)
    requires Sound(db) && forall j :: j in db.rows ==> j.group in listed
    ensures var after := Cleaned(p, db, listed);
            (k in after.rows <==> k in db.rows && Stays(p, db, k))
            && (k in after.rows ==> after.rows[k] == db.rows[k])
            && (id in after.messages <==> exists j :: j in after.rows && after.rows[j].id == id)
            && (id in after.messages ==> after.messages[id] == db.messages[id])
            && after.groups == db.groups && after.overview == db.overview
  {
    var swept := Swept(p, db, listed);
    if j :| j in swept.rows && swept.rows[j].id == id {
      assert db.rows[j].id in db.messages;
    }
  }

  /** A second run at the same time changes nothing. */
  lemma CleanedTwice(p: Policy, db: Db, listed: set<string>)
    ensures Cleaned(p, Cleaned(p, db, listed), listed) == Cleaned(p, db, listed)
  {
    var once := Cleaned(p, db, listed);
    assert Purged(p, once, listed) == {};
    NoneExpiredLeft(p, db, listed);
    assert WithoutIds(once, {}) == once;
    assert DeleteRows(once, {}) == once;
    assert DeleteOrphans(once) == once;
  }

  lemma NoneExpiredLeft(p: Policy, db: Db, listed: set<string>)
    ensures ExpiredIn(p, Cleaned(p, db, listed), listed) == {}
  {
    var once := Cleaned(p, db, listed);
    forall k | k in once.rows && k.group in listed
      ensures k in db.rows && once.rows[k] == db.rows[k] && !TooOld(p, k, db.rows[k])
      ensures db.rows[k].id !in ExpiredIn(p, db, listed)
    {
    }
  }
}
