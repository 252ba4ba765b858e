/** How articles enter the store: POST only queues them, IHAVE and TAKETHIS store
    them and queue a copy, and workers store what is not there yet
    (src/queue.rs, src/handlers/post.rs, src/handlers/streaming.rs). */
module Intake {
  import HeaderParser
  import MessageId
  import Relay
  import opened Text
  import opened Wire
  import opened Store
  import opened StoreRuns

  /** The bounded queue. */
  class ArticleQueue {
    var waiting: seq<Message>
    const capacity: nat

    constructor (capacity: nat)
      ensures waiting == [] && this.capacity == capacity
    {
      waiting := [];
      this.capacity := capacity;
    }
  }

  // ---- The steps ----

  datatype Node = Node(db: Db, queue: seq<Message>)

  datatype Event =
    | Post(article: Message)
    | IHave(offered: string, article: Message, now: int)
    | TakeThis(offered: string, article: Message, now: int)
    | WorkerPass(now: int)

  function IdOrEmpty(article: Message): string {
    var id := ArticleId(article);
    if id.Some? then id.value else ""
  }

  /** A worker skips an article whose id is not empty and already stored. */
  ghost function Processed(db: Db, article: Message, now: int): Db {
    if IdOrEmpty(article) != "" && IdOrEmpty(article) in db.messages then db else AfterStore(db, article, now)
  }

  /** IHAVE and TAKETHIS refuse an offered id that is stored, and a storing that fails. */
  predicate Wanted(db: Db, offered: string, article: Message) {
    offered !in db.messages && ArticleId(article).Some?
  }

  ghost function Exec(node: Node, e: Event): Node {
    match e
    case Post(article) => node.(queue := node.queue + [article])
    case IHave(offered, article, now) =>
      if Wanted(node.db, offered, article)
      then Node(AfterStore(node.db, article, now), node.queue + [article]) else node
    case TakeThis(offered, article, now) =>
      if Wanted(node.db, offered, article)
      then Node(AfterStore(node.db, article, now), node.queue + [article]) else node
    case WorkerPass(now) =>
      if node.queue == [] then node else Node(Processed(node.db, node.queue[0], now), node.queue[1..])
  }

  /** The articles a step accepts. */
  function Accepting(node: Node, e: Event): seq<Message> {
    match e
    case Post(article) => [article]
    case IHave(offered, article, _) => if Wanted(node.db, offered, article) then [article] else []
    case TakeThis(offered, article, _) => if Wanted(node.db, offered, article) then [article] else []
    case WorkerPass(_) => []
  }

  ghost function NodeOf(store: ArticleStore, queue: ArticleQueue): Node
    reads store, queue
  {
    Node(store.Contents(), queue.waiting)
  }

  method ProcessArticle(store: ArticleStore, queue: ArticleQueue, now: int)
    requires queue.waiting != []
    modifies store, queue
    ensures NodeOf(store, queue) == Exec(old(NodeOf(store, queue)), WorkerPass(now))
    ensures var head := old(queue.waiting)[0];
            var known := ArticleId(head).Some? && ArticleId(head) != Some("") && ArticleId(head).value in old(store.messages);
            queue.waiting == old(queue.waiting)[1..]
            && store.Contents() == if known then old(store.Contents()) else AfterStore(old(store.Contents()), head, now)
  {
    var article := queue.waiting[0];
    queue.waiting := queue.waiting[1..];
    var messageId := IdOrEmpty(article);
    if messageId != "" {
      var existing := store.GetArticleById(messageId);
      if existing.Some? {
        return;
      }
    }
    var _ := store.StoreArticle(article, now);
  }

  // ---- Waiting for room ----

  ghost function Passes(node: Node, n: nat, now: int): Node
    decreases n
  {
    if n == 0 then node else Passes(Exec(node, WorkerPass(now)), n - 1, now)
  }

  lemma {:induction false} LastPass(node: Node, n: nat, now: int)
    ensures Passes(node, n + 1, now) == Exec(Passes(node, n, now), WorkerPass(now))
    decreases n
  {
    hide Exec;
    if n > 0 { LastPass(Exec(node, WorkerPass(now)), n - 1, now); }
  }

  /** What is queued behind them makes no difference to the passes. */
  lemma {:induction false} PassesBefore(node: Node, article: Message, n: nat, now: int)
    requires n <= |node.queue|
    ensures |Passes(node, n, now).queue| == |node.queue| - n
    ensures Passes(node.(queue := node.queue + [article]), n, now)
         == Passes(node, n, now).(queue := Passes(node, n, now).queue + [article])
    decreases n
  {
    hide Processed;
    if n > 0 {
      assert (node.queue + [article])[1..] == node.queue[1..] + [article];
      PassesBefore(Exec(node, WorkerPass(now)), article, n - 1, now);
    }
  }

  /** A full queue is waited for: workers take from it until there is room. As far as the tables
      and the queue go that is queueing at once and the same passes afterwards. */
  method Submit(store: ArticleStore, queue: ArticleQueue, article: Message, now: int) returns (passes: nat)
    requires queue.capacity > 0
    modifies store, queue
    ensures NodeOf(store, queue) == Passes(Node(old(store.Contents()), old(queue.waiting) + [article]), passes, now)
    ensures passes == if |old(queue.waiting)| < queue.capacity then 0 else |old(queue.waiting)| - queue.capacity + 1
  {
    ghost var before := NodeOf(store, queue);
    passes := 0;
    while |queue.waiting| >= queue.capacity
      invariant passes <= |before.queue| && NodeOf(store, queue) == Passes(before, passes, now)
      invariant |queue.waiting| == |before.queue| - passes
      invariant passes > 0 ==> |queue.waiting| + 1 >= queue.capacity
      decreases |queue.waiting|
    {
      LastPass(before, passes, now);
      ProcessArticle(store, queue, now);
      passes := passes + 1;
    }
    PassesBefore(before, article, passes, now);
    queue.waiting := queue.waiting + [article];
  }

  /** POST queues the article and stores nothing itself. */
  method PostArticle(store: ArticleStore, queue: ArticleQueue, article: Message, now: int) returns (passes: nat)
    requires queue.capacity > 0
    modifies store, queue
    ensures NodeOf(store, queue) == Passes(Exec(old(NodeOf(store, queue)), Post(article)), passes, now)
    ensures |old(queue.waiting)| < queue.capacity ==> passes == 0
  {
    passes := Submit(store, queue, article, now);
  }

  // ---- IHAVE and TAKETHIS ----

  /** What the handlers are given: an id and a date for articles without, which messages are
      control messages and whether handling one succeeds, and the bandwidth and validity checks. */
  datatype Checks = Checks(newId: string, date: string, isControl: Message -> bool, handled: Message -> bool,
                           hasBandwidth: nat -> bool, valid: (Message, nat) -> bool)

  datatype Screened = Store(article: Message) | Answer(code: nat)

  /** What becomes of a text that was sent: an article to store, or a response at once. */
  function Screen(text: string, checks: Checks, accepted: nat, rejected: nat): Screened {
    match Relay.Prepared(text, checks.newId, checks.date)
    case None => Answer(rejected)
    case Some(article) =>
      if checks.isControl(HeaderParser.Parse(text).value) then
        Answer(if checks.handled(article) then accepted else rejected)
      else if !checks.hasBandwidth(Bytes(text)) then Answer(403)
      else if !checks.valid(article, Bytes(text)) then Answer(rejected)
      else Store(article)
  }

  lemma {:induction false} HasValue(hs: seq<Header>, name: string)
    ensures HeaderValue(hs, name).Some? <==> Relay.HasHeader(hs, name)
  {
    if hs != [] {
      HasValue(hs[1..], name);
      assert forall h :: h in hs <==> h == hs[0] || h in hs[1..];
    }
  }

  /** An article that is to be stored has a Message-ID, so that storing does not fail. */
  lemma ScreenedHasId(text: string, checks: Checks, accepted: nat, rejected: nat)
    requires Screen(text, checks, accepted, rejected).Store?
    ensures ArticleId(Screen(text, checks, accepted, rejected).article).Some?
  {
    var msg := HeaderParser.Parse(text).value;
    var withId := Relay.Ensured(msg, "Message-ID", checks.newId);
    var dated := Relay.Ensured(withId, "Date", checks.date);
    assert Relay.HasHeader(withId.headers, "Message-ID") by {
      if withId != msg { assert withId.headers[|msg.headers|] in withId.headers; }
    }
    assert Relay.HasHeader(dated.headers, "Message-ID") by {
      assert forall h :: h in withId.headers ==> h in dated.headers;
    }
    Relay.HeadersKeepNames(dated, "Message-ID");
    HasValue(HeaderParser.EscapeIds(dated).headers, "Message-ID");
  }

  method ScreenText(text: string, checks: Checks, accepted: nat, rejected: nat) returns (r: Screened)
    ensures r == Screen(text, checks, accepted, rejected)
    ensures r.Store? ==> ArticleId(r.article).Some?
    ensures var article := Relay.Prepared(text, checks.newId, checks.date);
            match r
            case Store(a) =>
              article == Some(a) && !checks.isControl(HeaderParser.Parse(text).value)
              && checks.hasBandwidth(Bytes(text)) && checks.valid(a, Bytes(text))
            case Answer(code) =>
              if article.None? then code == rejected
              else if checks.isControl(HeaderParser.Parse(text).value) then
                code == (if checks.handled(article.value) then accepted else rejected)
              else if !checks.hasBandwidth(Bytes(text)) then code == 403
              else !checks.valid(article.value, Bytes(text)) && code == rejected
  {
    var article := Relay.PrepareArticle(text, checks.newId, checks.date);
    if article.None? {
      return Answer(rejected);
    }
    var parsed := HeaderParser.ParseMessage(text);
    if checks.isControl(parsed.value) {
      return Answer(if checks.handled(article.value) then accepted else rejected);
    }
    if !checks.hasBandwidth(Bytes(text)) {
      return Answer(403);
    }
    if !checks.valid(article.value, Bytes(text)) {
      return Answer(rejected);
    }
    ScreenedHasId(text, checks, accepted, rejected);
    return Store(article.value);
  }

  /** Refuses an id that is stored before the text is read; then what passes all checks is
      stored, queued and accepted, and anything else leaves store and queue as they are. */
  method IHaveArticle(store: ArticleStore, queue: ArticleQueue, id: string, text: string, checks: Checks, now: int)
      returns (code: nat, passes: nat)
    requires queue.capacity > 0
    modifies store, queue
    ensures var before, s := old(NodeOf(store, queue)), Screen(text, checks, 235, 437);
            if id in before.db.messages then code == 435 && NodeOf(store, queue) == before
            else if s.Answer? then code == s.code && NodeOf(store, queue) == before
            else code == 235 && Wanted(before.db, id, s.article)
                 && NodeOf(store, queue) == Passes(Exec(before, IHave(id, s.article, now)), passes, now)
    ensures |old(queue.waiting)| < queue.capacity ==> passes == 0
    ensures var article := Relay.Prepared(text, checks.newId, checks.date);
            var control := article.Some? && checks.isControl(HeaderParser.Parse(text).value);
            var room := checks.hasBandwidth(Bytes(text));
            var good := article.Some? && !control && room && checks.valid(article.value, Bytes(text));
            var new_ := id !in old(store.messages);
            (code == 435 <==> !new_)
            && (code == 403 <==> new_ && article.Some? && !control && !room)
            && (code == 437 <==> new_ && (article.None? || (control && !checks.handled(article.value))
                                          || (article.Some? && !control && room && !good)))
            && (code == 235 <==> new_ && (good || (control && checks.handled(article.value))))
            && (new_ && good ==>
                  NodeOf(store, queue) == Passes(Exec(old(NodeOf(store, queue)), IHave(id, article.value, now)), passes, now))
            && (!(new_ && good) ==> NodeOf(store, queue) == old(NodeOf(store, queue)))
  {
    code, passes := 437, 0;
    var existing := store.GetArticleById(id);
    if existing.Some? {
      return 435, 0;
    }
    var screened := ScreenText(text, checks, 235, 437);
    if screened.Answer? {
      return screened.code, 0;
    }
    var stored := store.StoreArticle(screened.article, now);
    if !stored {
      return;
    }
    passes := Submit(store, queue, screened.article, now);
    return 235, passes;
  }

  /** The text comes with the command, so that it is read before the id is looked up. */
  method TakeThisArticle(store: ArticleStore, queue: ArticleQueue, id: string, text: string, checks: Checks, now: int)
      returns (code: nat, passes: nat)
    requires queue.capacity > 0
    modifies store, queue
    ensures var before, s := old(NodeOf(store, queue)), Screen(text, checks, 239, 439);
            if id in before.db.messages then code == 439 && NodeOf(store, queue) == before
            else if s.Answer? then code == s.code && NodeOf(store, queue) == before
            else code == 239 && Wanted(before.db, id, s.article)
                 && NodeOf(store, queue) == Passes(Exec(before, TakeThis(id, s.article, now)), passes, now)
    ensures |old(queue.waiting)| < queue.capacity ==> passes == 0
    ensures var article := Relay.Prepared(text, checks.newId, checks.date);
            var control := article.Some? && checks.isControl(HeaderParser.Parse(text).value);
            var room := checks.hasBandwidth(Bytes(text));
            var good := article.Some? && !control && room && checks.valid(article.value, Bytes(text));
            var new_ := id !in old(store.messages);
            (code == 403 <==> new_ && article.Some? && !control && !room)
            && (code == 439 <==> !new_ || article.None? || (control && !checks.handled(article.value))
                                 || (!control && room && !good))
            && (code == 239 <==> new_ && (good || (control && checks.handled(article.value))))
            && (new_ && good ==>
                  NodeOf(store, queue) == Passes(Exec(old(NodeOf(store, queue)), TakeThis(id, article.value, now)), passes, now))
            && (!(new_ && good) ==> NodeOf(store, queue) == old(NodeOf(store, queue)))
  {
    code, passes := 439, 0;
    var parsed := HeaderParser.ParseMessage(text);
    if parsed.None? {
      return 439, 0;
    }
    var existing := store.GetArticleById(id);
    if existing.Some? {
      return 439, 0;
    }
    var screened := ScreenText(text, checks, 239, 439);
    if screened.Answer? {
      return screened.code, 0;
    }
    var stored := store.StoreArticle(screened.article, now);
    if !stored {
      return;
    }
    passes := Submit(store, queue, screened.article, now);
    return 239, passes;
  }

  // ---- One row per listing ----

  /** The numbers a message has in a group. */
  function RowsFor(rows: map<Key, Row>, group: string, id: string): set<nat> {
    set k | k in rows && k.group == group && rows[k].id == id :: k.number
  }

  lemma InRowsFor(rows: map<Key, Row>, group: string, id: string, n: nat)
    ensures n in RowsFor(rows, group, id) <==> Key(group, n) in rows && rows[Key(group, n)].id == id
  {
    if n in RowsFor(rows, group, id) {
      var k :| k in rows && k.group == group && rows[k].id == id && k.number == n;
      assert k == Key(group, n);
    }
    if Key(group, n) in rows { assert Key(group, n).number == n; }
  }

  /** A stored message has as many rows in a group as its Newsgroups header lists it. */
  ghost predicate OnceAt(db: Db, group: string, id: string)
    requires id in db.messages
  {
    |RowsFor(db.rows, group, id)| == Times(Newsgroups(db.messages[id].article), group)
  }

  ghost predicate StoredOnce(db: Db) {
    Sound(db) && Keyed(db) && forall id, g :: id in db.messages ==> OnceAt(db, g, id)
  }

  function Interval(lo: nat, count: nat): (r: set<nat>)
    ensures forall n :: n in r <==> lo < n <= lo + count
    ensures |r| == count
  {
    if count == 0 then {} else Interval(lo, count - 1) + {lo + count}
  }

  lemma RowsAddedAt(db: Db, article: Message, now: int, id: string, group: string, other: string, n: nat)
    requires ArticleId(article) == Some(id)
    ensures var m, t := MaxNumber(db.rows, group), Times(Newsgroups(article), group);
            (n in RowsFor(AfterStore(db, article, now).rows, group, other)
             <==> n in RowsFor(db.rows, group, other) || (other == id && m < n <= m + t))
            && (n in RowsFor(db.rows, group, other) ==> n <= m)
  {
    var db1, after, groups := InsertOrIgnoreMessage(db, id, article), AfterStore(db, article, now), Newsgroups(article);
    var k := Key(group, n);
    StoreInGroupsAt(db1, id, article, now, groups, k);
    InNumbers(db.rows.Keys, group, n);
    assert Key(group, n) in db.rows ==> n <= MaxNumber(db.rows, group);
    hide StoreInGroups, Newsgroups, RowsFor, OverviewLine, OverviewBytes, MaxNumber;
    InRowsFor(after.rows, group, other, n);
    InRowsFor(db.rows, group, other, n);
    if NewKey(db1, groups, k) { NewKeysAreFree(db1, groups, k); }
  }

  /** Storing adds as many rows as the article lists the group. */
  lemma RowsAdded(db: Db, article: Message, now: int, id: string, group: string, other: string)
    requires ArticleId(article) == Some(id)
    ensures |RowsFor(AfterStore(db, article, now).rows, group, other)|
         == |RowsFor(db.rows, group, other)| + if other == id then Times(Newsgroups(article), group) else 0
  {
    hide AfterStore, RowsFor, MaxNumber, Newsgroups, ArticleId, Interval;
    var after := AfterStore(db, article, now);
    var m, t := MaxNumber(db.rows, group), Times(Newsgroups(article), group);
    var before := RowsFor(db.rows, group, other);
    var added := if other == id then Interval(m, t) else {};
    forall n: nat
      ensures n in RowsFor(after.rows, group, other) <==> n in before || n in added
      ensures n in before ==> n !in added
    {
      RowsAddedAt(db, article, now, id, group, other, n);
    }
    assert before !! added && |before + added| == |before| + |added|;
    assert RowsFor(after.rows, group, other) == before + added;
    assert |added| == if other == id then t else 0;
  }

  lemma NoRowsOfUnknown(db: Db, group: string, id: string)
    requires Sound(db) && id !in db.messages
    ensures RowsFor(db.rows, group, id) == {}
  {
    forall n | n in RowsFor(db.rows, group, id)
      ensures false
    {
      InRowsFor(db.rows, group, id, n);
    }
  }

  lemma OnceAtAfterStore(db: Db, article: Message, now: int, id: string, group: string, other: string)
    requires StoredOnce(db) && ArticleId(article) == Some(id) && other in AfterStore(db, article, now).messages
    ensures OnceAt(AfterStore(db, article, now), group, other)
            <==> other != id || id !in db.messages || Times(Newsgroups(article), group) == 0
  {
    StoreClosedForm(db, article, now, id);
    RowsAdded(db, article, now, id, group, other);
    hide Newsgroups, RowsFor, AfterStore;
    if other !in db.messages {
      NoRowsOfUnknown(db, group, other);
    } else {
      assert OnceAt(db, group, other);
    }
  }

  /** From a good state, storing keeps one row per listing exactly when the id is new or
      the article lists no group. */
  lemma StoreKeepsOnceExactly(db: Db, article: Message, now: int, id: string)
    requires StoredOnce(db) && ArticleId(article) == Some(id)
    ensures StoredOnce(AfterStore(db, article, now)) <==> (id !in db.messages || Newsgroups(article) == [])
  {
    var after, groups := AfterStore(db, article, now), Newsgroups(article);
    StoreKeepsSound(db, article, now, id);
    forall other, g | other in after.messages
      ensures OnceAt(after, g, other) <==> other != id || id !in db.messages || Times(groups, g) == 0
    {
      OnceAtAfterStore(db, article, now, id, g, other);
    }
    hide AfterStore, OnceAt, Newsgroups, Sound, Keyed;
    if groups != [] {
      assert Times(groups, groups[0]) > 0;
      assert OnceAt(after, groups[0], id) <==> id !in db.messages;
    } else {
      assert forall g :: Times(groups, g) == 0;
    }
  }

  lemma StoreKeepsSound(db: Db, article: Message, now: int, id: string)
    requires Sound(db) && Keyed(db) && ArticleId(article) == Some(id)
    ensures var after := AfterStore(db, article, now); Sound(after) && Keyed(after) && id in after.messages
    ensures forall i :: i in AfterStore(db, article, now).messages <==> i in db.messages || i == id
    ensures id !in db.messages ==> AfterStore(db, article, now).messages[id].article == article
    ensures forall i :: i in db.messages ==> AfterStore(db, article, now).messages[i] == db.messages[i]
  {
    var after := AfterStore(db, article, now);
    StoreClosedForm(db, article, now, id);
    hide AfterStore, ArticleId, Bytes, StoredAt, Keyed;
    assert after.messages == InsertOrIgnoreMessage(db, id, article).messages;
    InsertKeyed(db, id, article, after);
    assert Sound(after) by {
      hide InsertOrIgnoreMessage;
      forall k | k in after.rows
        ensures after.rows[k].id in after.messages
      {
        StoredRow(db, after, id, article, now, k);
      }
    }
  }

  lemma InsertKeyed(db: Db, id: string, article: Message, after: Db)
    requires Keyed(db) && ArticleId(article) == Some(id)
    requires after.messages == InsertOrIgnoreMessage(db, id, article).messages
    ensures Keyed(after) && id in after.messages && forall i :: i in after.messages <==> i in db.messages || i == id
  {
    hide ArticleId;
  }

  lemma StoredRow(db: Db, after: Db, id: string, article: Message, now: int, k: Key)
    requires Sound(db) && k in after.rows
    requires StoredAt(InsertOrIgnoreMessage(db, id, article), after, id, article, now, Newsgroups(article), k)
    ensures after.rows[k].id == id || after.rows[k].id in db.messages
  {
    hide Newsgroups, OverviewLine, OverviewBytes, NewKey;
  }

  // ---- Runs ----

  /** The offered id is the header's, and no id is empty. */
  predicate Honest(e: Event) {
    match e
    case Post(article) => ArticleId(article).Some? && ArticleId(article) != Some("")
    case IHave(offered, article, _) => ArticleId(article) == Some(offered) && offered != ""
    case TakeThis(offered, article, _) => ArticleId(article) == Some(offered) && offered != ""
    case WorkerPass(_) => true
  }

  /** Every accepted article is stored under its id or waits for a worker. */
  ghost predicate Settling(node: Node, accepted: seq<Message>) {
    StoredOnce(node.db)
    && (forall a :: a in node.queue ==> a in accepted)
    && (forall a :: a in accepted ==> ArticleId(a).Some? && ArticleId(a) != Some("")
                                      && (IdOrEmpty(a) in node.db.messages || a in node.queue))
    && (forall id :: id in node.db.messages ==> node.db.messages[id].article in accepted)
  }

  ghost function ExecAll(node: Node, es: seq<Event>): Node
    decreases |es|
  {
    if es == [] then node else ExecAll(Exec(node, es[0]), es[1..])
  }

  ghost function AllAccepted(node: Node, accepted: seq<Message>, es: seq<Event>): seq<Message>
    decreases |es|
  {
    if es == [] then accepted else AllAccepted(Exec(node, es[0]), accepted + Accepting(node, es[0]), es[1..])
  }

  lemma StoreSettles(node: Node, accepted: seq<Message>, article: Message, now: int, id: string)
    requires Settling(node, accepted) && ArticleId(article) == Some(id) && id != "" && id !in node.db.messages
    ensures Settling(Node(AfterStore(node.db, article, now), node.queue + [article]), accepted + [article])
    ensures article in accepted ==>
              Settling(Node(AfterStore(node.db, article, now), node.queue), accepted)
  {
    var db := node.db;
    var after := AfterStore(db, article, now);
    SettlingIsSound(node, accepted);
    assert StoredOnce(db);
    StoreKeepsOnceExactly(db, article, now, id);
    StoreKeepsSound(db, article, now, id);
    OwnId(article, id);
    hide AfterStore, StoredOnce, ArticleId, Sound, Keyed, IdOrEmpty;
    forall a | a in accepted + [article]
      ensures ArticleId(a).Some? && ArticleId(a) != Some("")
      ensures IdOrEmpty(a) in after.messages || a in node.queue
    {
    }
    forall i | i in after.messages
      ensures i == id || after.messages[i].article in accepted
    {
    }
  }

  lemma OwnId(article: Message, id: string)
    requires ArticleId(article) == Some(id)
    ensures IdOrEmpty(article) == id
  {
  }

  lemma ExecSettles(node: Node, accepted: seq<Message>, e: Event)
    requires Settling(node, accepted) && Honest(e)
    ensures Settling(Exec(node, e), accepted + Accepting(node, e))
  {
    hide StoredOnce, AfterStore;
    match e {
      case Post(article) =>
      case IHave(offered, article, now) =>
        if Wanted(node.db, offered, article) { StoreSettles(node, accepted, article, now, offered); }
      case TakeThis(offered, article, now) =>
        if Wanted(node.db, offered, article) { StoreSettles(node, accepted, article, now, offered); }
      case WorkerPass(now) =>
        if node.queue != [] { WorkerSettles(node, accepted, now); }
    }
    assert accepted + [] == accepted;
  }

  lemma WorkerSettles(node: Node, accepted: seq<Message>, now: int)
    requires Settling(node, accepted) && node.queue != []
    ensures Settling(Exec(node, WorkerPass(now)), accepted)
  {
    hide StoredOnce, AfterStore;
    var article, rest := node.queue[0], node.queue[1..];
    var id := IdOrEmpty(article);
    assert article in accepted;
    assert forall a :: a in node.queue <==> a == article || a in rest;
    if id !in node.db.messages {
      SettlingIsSound(node, accepted);
      StoreSettles(node, accepted, article, now, id);
      StoreKeepsSound(node.db, article, now, id);
    }
  }

  lemma SettlingIsSound(node: Node, accepted: seq<Message>)
    requires Settling(node, accepted)
    ensures Sound(node.db) && Keyed(node.db)
  {
  }

  lemma {:induction false} SettlingAlways(node: Node, accepted: seq<Message>, es: seq<Event>)
    requires Settling(node, accepted) && forall e :: e in es ==> Honest(e)
    ensures Settling(ExecAll(node, es), AllAccepted(node, accepted, es))
    decreases |es|
  {
    if es != [] {
      ExecSettles(node, accepted, es[0]);
      SettlingAlways(Exec(node, es[0]), accepted + Accepting(node, es[0]), es[1..]);
    }
  }

  predicate Distinct(groups: seq<string>) {
    forall i, j :: 0 <= i < j < |groups| ==> groups[i] != groups[j]
  }

  lemma {:induction false} TimesOfMember(groups: seq<string>, g: string)
    ensures Times(groups, g) > 0 <==> g in groups
    ensures Distinct(groups) ==> Times(groups, g) <= 1
  {
    if groups != [] {
      TimesOfMember(groups[1..], g);
    }
  }

  /** A run of POST, IHAVE, TAKETHIS and worker steps that ends with an empty queue leaves,
      for every accepted article, an accepted article of its id stored with one row in each
      group of its distinct listing and none in others. */
  lemma ExactlyOnce(es: seq<Event>, a: Message, group: string)
    requires forall e :: e in es ==> Honest(e)
    requires var start := Node(Empty(), []);
             ExecAll(start, es).queue == [] && a in AllAccepted(start, [], es)
    ensures var start := Node(Empty(), []);
            var db, id := ExecAll(start, es).db, IdOrEmpty(a);
            id in db.messages && db.messages[id].article in AllAccepted(start, [], es)
            && ArticleId(db.messages[id].article) == Some(id)
            && (Distinct(Newsgroups(db.messages[id].article)) ==>
                  |RowsFor(db.rows, group, id)| == if group in Newsgroups(db.messages[id].article) then 1 else 0)
  {
    var start := Node(Empty(), []);
    SettlingAlways(start, [], es);
    var db, id := ExecAll(start, es).db, IdOrEmpty(a);
    assert OnceAt(db, group, id);
    TimesOfMember(Newsgroups(db.messages[id].article), group);
  }

  lemma {:induction false} MappedId(hs: seq<Header>, f: string -> string)
    requires HeaderValue(hs, "Message-ID").Some?
    ensures HeaderValue(HeaderParser.MapIds(hs, f), "Message-ID") == Some(f(HeaderValue(hs, "Message-ID").value))
  {
    var m := HeaderParser.MapIds(hs, f);
    assert m[0] == HeaderParser.MapId(hs[0], f);
    if !EqIgnoreCase(hs[0].name, "Message-ID") {
      assert m[1..] == HeaderParser.MapIds(hs[1..], f);
      MappedId(hs[1..], f);
    }
  }

  lemma {:induction false} AppendedId(hs: seq<Header>, h: Header)
    requires HeaderValue(hs, "Message-ID").Some?
    ensures HeaderValue(hs + [h], "Message-ID") == HeaderValue(hs, "Message-ID")
  {
    assert (hs + [h])[0] == hs[0];
    if !EqIgnoreCase(hs[0].name, "Message-ID") {
      assert (hs + [h])[1..] == hs[1..] + [h];
      AppendedId(hs[1..], h);
    }
  }

  /** An id that is offered just as its header is sent is the stored one exactly when it is in
      stored form; any other gets past the look-up however often it is offered. */
  lemma OfferedAsSent(text: string, checks: Checks, offered: string, now: int)
    requires Screen(text, checks, 235, 437).Store?
    requires HeaderValue(HeaderParser.ParseBlock(text).value.0, "Message-ID") == Some(offered)
    ensures var e := IHave(offered, Screen(text, checks, 235, 437).article, now);
            ArticleId(e.article) == Some(MessageId.Rewritten(offered))
            && (Honest(e) <==> offered != "" && MessageId.Rewritten(offered) == offered)
            && (Honest(e) <==> offered != "" && Relay.StoredForm(offered))
  {
    var msg := HeaderParser.Parse(text).value;
    MappedId(HeaderParser.ParseBlock(text).value.0, MessageId.Unescape);
    HasValue(msg.headers, "Message-ID");
    var withId := Relay.Ensured(msg, "Message-ID", checks.newId);
    assert withId == msg;
    AppendedId(msg.headers, Header("Date", checks.date));
    var dated := Relay.Ensured(msg, "Date", checks.date);
    MappedId(dated.headers, MessageId.Escape);
    Relay.StoredFormExactly(offered);
  }

  // ---- Where it fails ----

  /** An offered id that is not the header's defeats the check: a stored article is
      then stored again for every group it lists. */
  lemma DishonestOfferDuplicates(node: Node, offered: string, article: Message, now: int, group: string)
    requires StoredOnce(node.db) && ArticleId(article).Some? && ArticleId(article).value in node.db.messages
    requires offered !in node.db.messages && group in Newsgroups(article)
    ensures !StoredOnce(Exec(node, IHave(offered, article, now)).db)
  {
    StoreKeepsOnceExactly(node.db, article, now, ArticleId(article).value);
  }

  /** A worker does not check an empty Message-ID, so a queued copy is stored twice. */
  lemma EmptyIdDuplicates(node: Node, article: Message, now: int, group: string)
    requires StoredOnce(node.db) && ArticleId(article) == Some("") && "" in node.db.messages
    requires group in Newsgroups(article) && node.queue != [] && node.queue[0] == article
    ensures !StoredOnce(Exec(node, WorkerPass(now)).db)
  {
    StoreKeepsOnceExactly(node.db, article, now, "");
  }

  lemma ExecTwo(node: Node, e: Event, f: Event)
    ensures ExecAll(node, [e, f]) == Exec(Exec(node, e), f)
  {
    assert [e, f][1..] == [f] && [f][1..] == [];
    assert ExecAll(Exec(node, e), [f]) == ExecAll(Exec(Exec(node, e), f), []);
  }

  /** From the empty store: one article offered under its own and under another id. */
  lemma OfferedTwice(now: int)
    ensures var a := Sample("<a@b>");
            !StoredOnce(ExecAll(Node(Empty(), []), [IHave("<a@b>", a, now), IHave("<b@b>", a, now)]).db)
  {
    var a, start := Sample("<a@b>"), Node(Empty(), []);
    SampleParts("<a@b>");
    hide Sample, Newsgroups, ArticleId, AfterStore;
    ExecTwo(start, IHave("<a@b>", a, now), IHave("<b@b>", a, now));
    StoreKeepsOnceExactly(start.db, a, now, "<a@b>");
    StoreKeepsSound(start.db, a, now, "<a@b>");
    DishonestOfferDuplicates(Exec(start, IHave("<a@b>", a, now)), "<b@b>", a, now, "g");
  }

  /** From the empty store: one article with an empty id posted twice and worked off. */
  lemma PostedTwice(now: int)
    ensures var a := Sample("");
            !StoredOnce(ExecAll(Node(Empty(), []), [Post(a), Post(a), WorkerPass(now), WorkerPass(now)]).db)
  {
    var a, start := Sample(""), Node(Empty(), []);
    SampleParts("");
    hide Sample, Newsgroups, ArticleId, AfterStore;
    var p, w := Post(a), WorkerPass(now);
    var queued, worked := Node(Empty(), [a, a]), Node(AfterStore(Empty(), a, now), [a]);
    assert Exec(Exec(start, p), p) == queued;
    assert Exec(queued, w) == worked by { assert [a, a][1..] == [a]; }
    assert [p, p, w, w][1..] == [p, w, w] && [p, w, w][1..] == [w, w];
    ExecTwo(queued, w, w);
    assert ExecAll(start, [p, p, w, w]) == ExecAll(queued, [w, w]);
    StoreKeepsOnceExactly(start.db, a, now, "");
    StoreKeepsSound(start.db, a, now, "");
    EmptyIdDuplicates(worked, a, now, "g");
  }
}
