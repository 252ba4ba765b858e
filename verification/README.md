# A verified model of the renews news server

renews is an NNTP server. This project models the parts of it that carry state and hard
properties, and proves those properties for every input, every run and every interleaving that
the model's steps allow. One module stands for one component; loops and in-place updates of the
server are methods and classes here, each proved against a specification function whose own
properties are then proved as lemmas.

* **Text** - Unicode white space and trimming, ASCII case folding, splitting, UTF-8 sizes, decimals.
* **MessageId** - the scanner and the printer of Message-IDs: quoted strings, domain literals and
  nested comments as an automaton, the exact domain of the round trip, deletion of comments.
* **Wire**, **HeaderParser**, **Relay** - multi-line blocks with dot-stuffing (sections 3.1.1 and
  3.6 of RFC 3977), folded headers, and the end-to-end theorem: what one site writes, another
  reads, parses and re-escapes to the same headers and the normalised body, exactly for the header
  lists named there.
* **Charge** - what a retrieval is charged for against what it writes.
* **Wildmat** - wildmat patterns (section 4 of RFC 3977) compiled to regular-expression text; the
  text is read back with a grammar of the emitted fragment and means what the pattern means.
* **Store**, **StoreRuns**, **StoreConcurrency**, **ConcurrentOverview**, **ConcurrentAge** - the four
  tables; each operation as one step and as the separate SQL statements that callers interleave;
  numbering, the overview cache and the order of age over all runs.
* **Retention** - the nested cleanup loops and their closed form.
* **Intake**, **IntakeRace** - POST, IHAVE, TAKETHIS and the workers behind the bounded queue: one row
  per listed group for every accepted article, with each handler as one step and with the look-up and
  the statements of the store apart.
* **Tracker** - per-user connection counters and bandwidth, shared by concurrent sessions.
* **Flood**, **PeerSync**, **Delivery** - loop avoidance through Path with a termination measure and
  the routes it leaves open, for every article as parsed; which stored articles a peer is ever offered
  over a run of synchronisations; which sites of a network come to hold an article.
* **Moderation**, **RuleLookup** - the pairing of approvals with signatures, and the choice of the
  most specific configuration rule.

Where the code does not do what its documentation or its surroundings suggest, the model keeps the
code, and a lemma gives the exact condition or a concrete run:

* A Message-ID survives printing and scanning exactly when its right part is a domain literal or is
  passed through by the scanner unchanged (`MessageId.RoundTrip`); a blank in a domain is lost at
  the first hop (`MessageId.BlankInDomainIsLost`).
* Header lines are sent without dot-stuffing, so a header name that starts with two dots loses one
  (`Relay.RelayRoundTrip`, its converse `Relay.RelayOnlySafe`, and `Relay.DotIsLost`).
* `read_message` ends exactly on inputs with a terminator line; at the end of the input it goes on
  forever (`Wire.ReadHaltsExactly`, `Wire.ReadsForever`).
* A pattern that ends in a lone backslash loses its end anchor (`Wildmat.DanglingBackslash`,
  `Wildmat.DanglingMatch`).
* `get_overview_range` returns the lines of deleted numbers too; it equals recomputing exactly when
  there are none in the range (`StoreRuns.OverFromCache`), and a store and a deletion leave one
  (`StoreRuns.DeletedLineStays`).
* With deletions between the statements of a store, a late line can land on a number that has been
  taken again. All live rows stay cached or owed exactly when no such line is written
  (`ConcurrentOverview.LateLineExactly`, `ConcurrentOverview.FineAlongExactly`), which holds when no
  deletion takes a row that still lacks its line; a run in which one does ends with a wrong line
  (`ConcurrentOverview.SampleLineClobbered`).
* An offered id that differs from the header's, and an empty Message-ID, get past the duplicate
  check (`Intake.OfferedTwice`, `Intake.PostedTwice`), and so does an id that is looked up again before
  the first call for it has executed a statement (`IntakeRace.LetsPassExactly`, `IntakeRace.BothPass`).
  An id offered just as its header is sent is the stored one exactly when it is in stored form
  (`Intake.OfferedAsSent`).
* A call that has read a group's highest number is refused exactly when another has inserted into the
  group since (`StoreConcurrency.RefusedExactly`); with deletions, exactly when the number behind that
  one is taken by then or its message is gone (`StoreConcurrency.RefusedWithDeletions`,
  `StoreConcurrency.OrphanedCallIsRefused`). It leaves the groups it has not served without rows: an id
  has one row in each of its distinct groups exactly when one call alone has inserted anything and one
  is done (`IntakeRace.OnceExactly`), and without deletions what is missing stays missing, as the
  stored message keeps every later offer out (`IntakeRace.SettledForGood`, `IntakeRace.RefusedForGood`).
* A call reads the clock once, before its loop, so that interleaved calls can number out of order of
  age: exactly by an insert whose time stands against a row of its group
  (`ConcurrentAge.InOrderExactly`, `ConcurrentAge.SecondInsertsFirst`).
* The removal and the putting back of a connection counter are two steps. A connection exceeds the
  limit exactly when the live ones have reached it and the counter is behind them
  (`Tracker.ConnectWithinLimitExactly`, and over whole runs `Tracker.LimitAlongExactly`). It is behind
  while some of it is taken out (`Tracker.GapDefeatsLimit`), and stays behind once a connection has
  been lost from it (`Tracker.LostCountDefeatsLimit`); account and limit are both kept exactly when
  none of three mishaps occurs (`Tracker.GoodAlongExactly`).
* The largest 64-bit bandwidth limit is not enforced, unless the period is zero
  (`Tracker.LimitHoldsExactly`).
* An article stored behind the listing of its group while a synchronisation is under way, or after its
  end in the same second, is never offered to that peer (`PeerSync.OfferedExactly`,
  `PeerSync.StoredBehindTheListing`, `PeerSync.StoredInTheSameSecond`).

`dafny verify dfyconfig.toml` checks the project.

## Model

| member | source | states |
|---|---|---|
| Text.TrimExactly | src/parse.rs:139 | trimming takes all white space off both ends and nothing else |
| Text.JoinedSplit | src/storage/common.rs:30 | splitting parts that are joined by a separator they do not have gives the parts |
| Text.EqIgnoreCaseExactly | src/handlers/utils.rs:31-36 | two names are equal without case if and only if they have the same length and, position by position, the same character or the two cases of one ASCII letter |
| Text.DecimalReadBack | src/overview.rs:48 | a printed number reads back as itself |
| Text.BytesExactly | src/handlers/utils.rs:286-305 | a string has one byte for each character and one more for each of the three UTF-8 bounds it reaches |
| MessageId.UnescapeMessageId | src/parse.rs:87-133 | the scanning loop with its two flags, depth and look-ahead computes the output of a six-mode automaton |
| MessageId.EscapeMessageId | src/parse.rs:138-201 | the printer, early returns for unbracketed text and for text without `@` included |
| MessageId.EscapeAddress | src/parse.rs:143-146 | the split at the first `@`; text without one is left alone |
| MessageId.EscapeLocalPart | src/parse.rs:147-184 | quotes are added exactly when some character is no atom character |
| MessageId.EscapeDomain | src/parse.rs:186-199 | a domain literal is escaped between its brackets, any other right part is kept |
| MessageId.PushEscaped | src/parse.rs:176-181 | the copying loop puts a backslash before every special character and no other |
| MessageId.AddressEscaped | src/parse.rs:138-201 | for any address without `@` on its left, a left part of atom characters is left as it is, and any other stands between quotes with its quotes and backslashes escaped |
| MessageId.BackslashedExactly | src/parse.rs:176-181 | at every position of a text, a special character becomes a backslash and the character, any other itself |
| MessageId.DomainEscaped | src/parse.rs:187-199 | the inside of a domain literal is escaped, any other right part is left as it is |
| MessageId.ScanEscapedLeft | src/parse.rs:147-184 | scanning any printed local part gives it back and ends outside quotes |
| MessageId.ScanEscapedRight | src/parse.rs:186-199 | scanning a printed right part gives it back if it is a literal, otherwise exactly if the scanner passes it unchanged, and loses characters when it does not |
| MessageId.RoundTrip | src/parse.rs:87-201 | unescape after escape is the identity on an identifier if and only if it is printable, for all strings |
| MessageId.EscapeInjective | src/parse.rs:138-201 | escape maps distinct printable identifiers to distinct texts |
| MessageId.StoredFormStable | src/parse.rs:87-201 | the stored form is unchanged by a further unescape and escape if and only if the trimmed identifier is printable |
| MessageId.AddressRewritten | src/parse.rs:87-201 | what any address without `@` on its left becomes after one hop |
| MessageId.BlankInDomainIsLost | src/parse.rs:127 | a concrete identifier that does not survive a hop |
| MessageId.CommentDeletion | src/parse.rs:97-104 | inserting a balanced parenthesised comment of any depth where the scanner is outside everything never changes the result |
| Wire.SendHeaders | src/handlers/utils.rs:94-102 | the bytes appended are the header block and nothing else |
| Wire.SendBody | src/handlers/utils.rs:105-114 | the bytes appended are the lines of the body, stuffed and each ended by CRLF |
| Wire.SendArticleContent | src/peers.rs:257-263 | the bytes appended are headers, blank line, stuffed body and terminator |
| Wire.ReadMessage | src/handlers/utils.rs:483-500 | the text up to the first terminator line, unstuffed; reading stops right behind that line |
| Wire.ReadHaltsExactly | src/handlers/utils.rs:487-498 | the reading loop comes to an end if and only if the input has a terminator line |
| Wire.ReadsForever | src/handlers/utils.rs:487-498 | two inputs, one of them empty, on which every step goes on reading |
| Wire.NeverTerminator | src/handlers/utils.rs:105-114 | no sent body line is taken for the terminator, and unstuffing undoes stuffing |
| Wire.Framing | src/handlers/utils.rs:483-500 | for every body and every following input, reading the stuffed body and its terminator gives the CRLF-normalised body and leaves exactly what follows |
| Wire.NormalisedOnce | src/handlers/utils.rs:106-112 | normalising keeps the lines, and a second time changes nothing |
| Wire.LinesExactly | src/handlers/utils.rs:106-112 | of texts each ended by LF or CRLF and a last one without an end, the lines are the texts, and the last one unless it is empty |
| HeaderParser.ParseHeaderLine | src/parse.rs:214-233 | a header and a rest are read if and only if the input is a name, a colon, blanks and a text, then any number of lines that start with blanks, in front of a rest that does not start with one; the value is all the texts with one space between them, and on any other input the loop fails |
| HeaderParser.FoldedLineRead | src/parse.rs:214-233 | a header printed on its first line and any number of continuation lines, with whatever blanks, is read as its name and the texts of all lines joined by single spaces |
| HeaderParser.ParseLineExactly | src/parse.rs:214-233 | and nothing else is read: parsing gives a header and a rest if and only if the input is that header folded in some way in front of that rest |
| HeaderParser.ParseHeaders | src/parse.rs:238-250 | the loop reads header lines up to the blank line and returns the rest as it is |
| HeaderParser.ParseMessage | src/parse.rs:258-267 | every Message-ID header, in whatever case, is unescaped in place and no other header is touched |
| HeaderParser.EscapeMessageIdHeader | src/parse.rs:204-210 | every Message-ID header is escaped in place, and every other header, all names and the body stay |
| HeaderParser.ParseBlock | src/parse.rs:238-250 | every header read has a non-empty name without colon or line end, and a value without line end |
| Relay.ReceiveArticle | src/handlers/streaming.rs:27-41 | read, parse, make up a missing Message-ID and Date, re-escape; and what stays unread on the connection |
| Relay.PrepareArticle | src/handlers/streaming.rs:28-41 | none if and only if the text does not parse; else the headers read, in order, then a missing Message-ID and a missing Date, with every Message-ID escaped and nothing else changed |
| Relay.EnsureHeader | src/parse.rs:271-300 | a header is added at the end when none of its name, in whatever case, is there |
| Relay.ParsedNeverFolds | src/parse.rs:214-250 | no parsed header but the very first has a name that starts with a blank |
| Relay.WireRead | src/handlers/utils.rs:483-500 | any article with clean headers is read back whole, its header names having lost one of two leading dots |
| Relay.ParseBlockAt | src/parse.rs:214-250 | a printed header block is parsed back one for one with leading blanks of values dropped, or as fewer headers exactly when a name starts with a blank |
| Relay.StoredFormExactly | src/parse.rs:87-201 | a Message-ID value is the printed form of a printable identifier if and only if a further hop leaves it as it is |
| Relay.RelayRoundTrip | src/peers.rs:257-263 | sent and followed by anything, an article with wire-safe headers is received with the same headers and the normalised body, and nothing behind it is read |
| Relay.RelayOnlySafe | src/peers.rs:257-263 | conversely, headers that arrive as they were sent are wire-safe |
| Relay.DotIsLost | src/handlers/utils.rs:493-494 | an article with a header named `..X` arrives with it named `.X` |
| Charge.ArticleSize | src/handlers/utils.rs:286-305 | the size charged for each kind of retrieval |
| Charge.WriteArticle | src/handlers/utils.rs:331-351 | what each kind of retrieval writes behind the status line |
| Charge.HeadChargeExact | src/handlers/utils.rs:295-302 | HEAD is charged exactly the UTF-8 bytes it writes behind the status line |
| Charge.BodyChargeGap | src/handlers/utils.rs:287-305 | ARTICLE and BODY write the charge plus dot-led lines plus bare line feeds plus two for an unended last line, minus two |
| Charge.BodyBytes | src/handlers/utils.rs:105-114 | how many bytes the stuffed body has more than the body |
| Wildmat.ParseClass | src/wildmat.rs:42-80 | the class text and the rest behind it; without a closing bracket nothing is consumed; what the text means is ClassExactly |
| Wildmat.PatternToRegex | src/wildmat.rs:12-40 | the compiling loop emits the specified text for every pattern |
| Wildmat.WildmatMatches | src/wildmat.rs:4-10 | the answer is that of the emitted text read as an expression; for supported patterns it is what the pattern means, and on texts without a line feed wildcards stand for any character |
| Wildmat.ItemsReadBack | src/wildmat.rs:65-78 | an emitted class body in front of any text reads back as the pattern's items, escapes and ranges kept apart |
| Wildmat.BodyReadBack | src/wildmat.rs:15-37 | the emitted text in front of any continuation reads back as the pattern's atoms, so `.`, `.*` and escaped literals are never confused |
| Wildmat.AtomsMean | src/wildmat.rs:4-40 | those atoms match a text if and only if the pattern, matched directly, does |
| Wildmat.CompilePreservesMeaning | src/wildmat.rs:4-40 | for every supported pattern and every text the emitted expression matches if and only if the pattern does |
| Wildmat.WildmatExact | src/wildmat.rs:4-40 | on texts without a line feed, wildcards stand for any character |
| Wildmat.ClassExactly | src/wildmat.rs:42-80 | a class of letters, digits and ranges matches a character if and only if it is listed, and behind a leading `!` or `^` if and only if it is not |
| Wildmat.LiteralExactly | src/wildmat.rs:12-40 | a pattern without special characters matches itself alone |
| Wildmat.QuestionExactly | src/wildmat.rs:18 | a question mark between two such texts stands for exactly one character |
| Wildmat.StarExactly | src/wildmat.rs:17 | a star between two such texts stands for any number of characters |
| Wildmat.EscapeExactly | src/wildmat.rs:28-34 | a backslash and any character match that character alone |
| Wildmat.MetaExactly | src/wildmat.rs:30 | the characters that escaping puts a backslash before |
| Wildmat.DanglingBackslash | src/wildmat.rs:28-34 | a final lone backslash makes the pattern match exactly the texts that continue a match with a dollar sign |
| Wildmat.DanglingMatch | src/wildmat.rs:28-34 | the pattern of an `a` and a backslash matches `a$b` and does not match `a` |
| Store.ArticleStore.NextNumber | src/storage/sqlite.rs:101-106 | one more than the group's highest number, or one |
| Store.ArticleStore.StoreArticle | src/storage/sqlite.rs:79-135 | the four tables afterwards; each new row has a line of eight tab-separated fields: number, the first Subject, From, Date, Message-ID and References, size and number of lines; fails only for a missing Message-ID, changing nothing |
| Store.ArticleStore.AssociateGroup | src/storage/sqlite.rs:101-131 | one group's row and overview line, with the same eight fields; refused without the message |
| Store.LineDescribes | src/overview.rs:25-50 | for header values without tabs, splitting an overview line at its tabs gives exactly the eight fields, each spelled out |
| Store.ValueIsFirst | src/handlers/utils.rs:31-36 | a header's value is that of the first header of the name, in whatever case, and none if there is no such header |
| Store.NewsgroupsListed | src/storage/common.rs:23-36 | the listed groups are the comma-separated parts of the first Newsgroups header, trimmed, in order |
| Store.BlankPartDropped | src/storage/common.rs:30-33 | a part of nothing but white space is no group |
| Store.ArticleStore.GetArticleById | src/storage/sqlite.rs:161-176 | the stored article or none |
| Store.ArticleStore.AddGroup | src/storage/sqlite.rs:224-233 | an existing group is left as it is |
| Store.ArticleStore.RemoveGroup | src/storage/sqlite.rs:246-261 | rows, entry and orphaned messages go, the overview stays |
| Store.ArticleStore.RemoveGroupsByPattern | src/storage/sqlite.rs:264-284 | exactly the matching groups are removed, one after the other |
| Store.ArticleStore.ListGroups | src/storage/sqlite.rs:354-370 | every group once, in order of name |
| Store.ArticleStore.ListArticleIds | src/storage/sqlite.rs:437-455 | the ids of the group's rows in order of number |
| Store.IdsInGroupExact | src/storage/sqlite.rs:437-455 | an id is listed if and only if some row of the group has it |
| Store.ArticleStore.PurgeGroupBefore | src/storage/sqlite.rs:485-496 | exactly the group's rows inserted before the time go |
| Store.ArticleStore.PurgeOrphanMessages | src/storage/sqlite.rs:499-506 | exactly the messages that no row refers to go |
| Store.ArticleStore.DeleteArticleById | src/storage/sqlite.rs:522-535 | all rows of the message and then the message |
| Store.WithoutArticleExactly | src/storage/sqlite.rs:522-535 | afterwards no row and no message of that id is left, every other row and message is as before, and the overview is not cleaned up |
| Store.WithoutGroupsExactly | src/storage/sqlite.rs:246-284 | in whatever order groups are removed, exactly the rows of other groups remain and, once any group is removed, exactly the messages those rows refer to |
| Store.ArticleStore.GetOverviewRange | src/storage/sqlite.rs:538-555 | the cached lines in the range in ascending order of number, with the bounds as they are bound |
| StoreRuns.StoreClosedForm | src/storage/sqlite.rs:79-135 | storing adds exactly the numbers right above each group's highest, one for every listing, with one row and one line each, and touches nothing else |
| StoreRuns.NewKeysAreFree | src/storage/sqlite.rs:101-116 | no store overwrites a row |
| StoreRuns.StoreAgreesExactly | src/storage/sqlite.rs:118-131 | a store keeps cache and live rows in agreement if and only if it adds no row, or the id is new, or the stored article has the same overview fields |
| StoreRuns.ApplyKeepsAgreement | src/storage/sqlite.rs:246-284 | every operation keeps the agreement, deletions and reused numbers included |
| StoreRuns.AgreementAlways | src/storage/sqlite.rs:79-556 | in every state reached by any run with one article per Message-ID, each live row's cached line is the line OVER generates |
| StoreRuns.AgreementFromNothing | src/storage/migrations/sqlite/0001_initial.sql:3-31 | in particular from the empty store |
| StoreRuns.OverFromCache | src/handlers/article.rs:139-151 | the cached range restricted to live numbers is what OVER recomputes, and the whole range is if and only if no deleted number in it left a line |
| StoreRuns.DeletedLineStays | src/storage/sqlite.rs:522-555 | a run of one store and one deletion after which the range still holds the deleted article's line and OVER has none |
| StoreRuns.AgedAlways | src/storage/sqlite.rs:99-116 | with a clock that never goes back, insertion time never decreases with the number in a group, after any run |
| StoreRuns.PurgeTakesPrefix | src/storage/sqlite.rs:485-496 | so a purge removes a prefix of the group's numbers |
| StoreRuns.LowMarkRises | src/storage/sqlite.rs:485-535 | no operation puts a number below all that the group had |
| StoreConcurrency.InsertExactly | src/storage/sqlite.rs:101-116 | a stale number is refused and changes nothing; any other insert takes exactly the number behind the highest |
| StoreConcurrency.ExecNumbered | src/storage/sqlite.rs:84-132 | every statement of every caller keeps each group's numbers at 1 to m |
| StoreConcurrency.NumberingAlways | src/storage/sqlite.rs:84-132 | under every interleaving of any number of calls without deletions each group's numbers are exactly 1 to m |
| StoreConcurrency.NumberingFromNothing | src/storage/sqlite.rs:84-132 | in particular from the empty store with nobody at work |
| StoreConcurrency.RowsSurvive | src/storage/migrations/sqlite/0001_initial.sql:10-17 | no caller's statement changes a row that is there, and no statement, deletions included, leaves a row without its message |
| StoreConcurrency.RefusedExactly | src/storage/sqlite.rs:101-116 | without deletions a call's insert is refused if and only if another call has inserted into the group since it read the highest number |
| StoreConcurrency.RefusedWithDeletions | src/storage/sqlite.rs:101-116 | with deletions, if and only if the number behind the highest it read is taken by then or its message is gone |
| StoreConcurrency.OrphanedCallIsRefused | src/storage/sqlite.rs:499-506 | a run in which a purge of orphans between a call's first statement and its first row makes it fail |
| StoreConcurrency.SoundAlways | src/storage/migrations/sqlite/0001_initial.sql:10-17 | so every row's message exists under every interleaving |
| StoreConcurrency.AloneIsStore | src/storage/sqlite.rs:79-135 | the statements of one undisturbed call add up to the whole operation |
| ConcurrentOverview.LateLineExactly | src/storage/sqlite.rs:118-131 | for every statement of a caller, every new call and every deletion: all rows stay cached rightly or owed by a caller of their own message if and only if the statement is not a line written onto another message's row that nobody of that message owes and whose overview fields differ |
| ConcurrentOverview.ExecSteady | src/storage/sqlite.rs:84-131 | what each of them keeps of the messages, their sizes and the calls at work |
| ConcurrentOverview.FineAlongExactly | src/storage/sqlite.rs:79-135 | along any run, deletions included, every row is cached or owed in every state if and only if no such line is written |
| ConcurrentOverview.ExecKeepsCache | src/storage/sqlite.rs:84-131 | no statement, deletions included, makes a row wrong unless a deletion takes a row that is still owed its line |
| ConcurrentOverview.QuiescentAgreement | src/storage/sqlite.rs:79-135 | however calls and deletions interleave, if deletions spare owed rows, then once no call is at work the cache agrees with every live row |
| ConcurrentOverview.QuiescentFromNothing | src/storage/migrations/sqlite/0001_initial.sql:3-31 | in particular from the empty store |
| ConcurrentOverview.DeletionClobbersLine | src/storage/sqlite.rs:118-131 | for any two articles of one group with different lines, a run with a deletion inside a store that ends with a wrong line for a live row |
| ConcurrentOverview.SampleLineClobbered | src/storage/sqlite.rs:118-131 | that run for two given articles |
| ConcurrentAge.InOrderExactly | src/storage/sqlite.rs:99-116 | for every statement, new call and deletion: the order of age is kept if and only if it is not a successful insert with a lower number of a later time or a higher number of an earlier one in its group |
| ConcurrentAge.InOrderAlongExactly | src/storage/sqlite.rs:99-116 | along every run, deletions included, the order holds in every state if and only if no such insert occurs |
| ConcurrentAge.SecondInsertsFirst | src/storage/sqlite.rs:485-496 | a run of two calls begun at the times 1 and 2 of which the second inserts first, and a purge that then takes the higher number alone |
| Retention.CleanupGroupByRetention | src/retention.rs:70-96 | exactly the group's rows older than its positive period go |
| Retention.CleanupGroupByExpiresHeader | src/retention.rs:99-140 | exactly the listed messages whose time has passed go, and their number is returned |
| Retention.DeleteExpired | src/retention.rs:107-129 | the loop, in which an id that is gone by then is passed over and not counted |
| Retention.CleanupExpiredArticles | src/retention.rs:18-67 | the nested loops leave the closed form, whatever order the groups are listed in, and return the numbers of groups and of distinct expired messages |
| Retention.CleanupGroups | src/retention.rs:34-49 | the outer loop over any list of groups leaves the closed form for those groups |
| Retention.SweepOneMore | src/retention.rs:34-49 | one more group's pass takes the closed form for some groups to that for one more |
| Retention.CleanedExactly | src/retention.rs:33-53 | a row remains if and only if its group has no positive period shorter than the row's age and its article no Expires time that has come; a message remains if and only if a remaining row refers to it |
| Retention.CleanedTwice | src/retention.rs:33-53 | a second run at the same time changes nothing |
| Intake.Submit | src/queue.rs:48-53 | a full queue is waited for while workers take from it; the outcome is that of queueing at once and the same passes afterwards |
| Intake.PostArticle | src/handlers/post.rs:102-114 | queues the article and stores nothing itself |
| Intake.ScreenText | src/handlers/streaming.rs:28-75 | each answer with its exact condition, in order: the text does not parse, it is a control message (handled or not), the bandwidth is used up, it is not valid; what is left is stored as prepared and has a Message-ID |
| Intake.IHaveArticle | src/handlers/streaming.rs:20-93 | 435 if and only if the id is stored; else 437 for a text that does not parse, a control message that is not handled or an article that is not valid, 403 without bandwidth, 235 for a handled control message; only what passes all of these is stored, queued and answered 235, and anything else leaves store and queue as they are |
| Intake.TakeThisArticle | src/handlers/streaming.rs:137-209 | the same with 439 and 239, the text read and parsed before the id is looked up |
| Intake.ProcessArticle | src/queue.rs:216-231 | a worker stores the article at the head of the queue unless its id is not empty and stored |
| Intake.RowsAdded | src/storage/sqlite.rs:100-116 | a store adds as many rows for its id as the article lists the group, and none for others |
| Intake.StoreKeepsOnceExactly | src/queue.rs:216-231 | a store keeps one row per listing if and only if the id is new or the article lists no group |
| Intake.SettlingAlways | src/queue.rs:216-231 | after every step of every run each accepted article is stored or waits, and each stored one has one row per listing |
| Intake.ExactlyOnce | src/handlers/streaming.rs:77-93 | a run of POST, IHAVE, TAKETHIS and worker steps that ends with an empty queue leaves every accepted id stored with exactly one row in each distinct listed group and none elsewhere |
| Intake.OfferedAsSent | src/handlers/streaming.rs:20-41 | an id offered just as its header is sent is the stored one if and only if it is in stored form |
| Intake.DishonestOfferDuplicates | src/handlers/streaming.rs:20-24 | an offered id other than the header's stores an article twice |
| Intake.OfferedTwice | src/handlers/streaming.rs:20-24 | a run of two offers of one article from the empty store that ends with two rows for one listing |
| Intake.EmptyIdDuplicates | src/queue.rs:224-229 | an empty Message-ID is stored twice |
| Intake.PostedTwice | src/queue.rs:224-229 | a run of two posts and two worker passes from the empty store that ends with two rows for one listing |
| IntakeRace.RacingAlways | src/handlers/streaming.rs:20-90 | under every interleaving of look-ups and statements each call has inserted exactly the rows it is counted for, and a message is stored exactly when some call of its id has executed its first statement |
| IntakeRace.OnceOfDone | src/handlers/streaming.rs:20-90 | once all calls for an id are done it has as many rows for each listing as calls |
| IntakeRace.OnceExactly | src/storage/sqlite.rs:100-132 | once all calls for an id are done or refused, it has one row in each listed group and none elsewhere if and only if one call alone has inserted anything and one is done |
| IntakeRace.OneCallExactly | src/storage/sqlite.rs:100-132 | of a single call, whatever it lists, every listing has its row if and only if the call is done |
| IntakeRace.SettledForGood | src/handlers/streaming.rs:20-24 | once an id's message is stored and its calls are settled, its rows stay as they are and every later offer is refused |
| IntakeRace.RefusedForGood | src/storage/sqlite.rs:101-116 | a run of two articles of one group from the empty store after which one is stored without a row, whatever follows |
| IntakeRace.LetsPassExactly | src/handlers/streaming.rs:20-24 | a look-up lets an id pass if and only if every call for it is before its first statement |
| IntakeRace.BothPass | src/handlers/streaming.rs:20-90 | two offers of any article, both looked up before either is stored, are both accepted and leave two rows for each listing |
| Tracker.UsageTracker.TryConnect | src/limits/tracker.rs:119-154 | whatever others do to the counter between reading and exchanging, the outcome is that of one step on the counter as last read; undisturbed, a connection is allowed exactly below the limit and then counted once |
| Tracker.UsageTracker.Decrement | src/limits/tracker.rs:158-161 | the counter goes down by one, and whether it was the last |
| Tracker.UsageTracker.RemoveUnused | src/limits/tracker.rs:168-174 | an entry at zero goes, any other is there afterwards as before |
| Tracker.UsageTracker.Disconnect | src/limits/tracker.rs:157-178 | every user's count afterwards, an absent entry counting zero; the last connection takes the entry with it |
| Tracker.UsageTracker.CheckBandwidth | src/limits/tracker.rs:202-242 | a window is reset if and only if a known user's is at least as old as the period; the transfer is allowed if and only if the window's bytes and the transfer's add up to no more than the limit, or the limit is the largest 64-bit number |
| Tracker.UsageTracker.RecordBandwidth | src/limits/tracker.rs:250-266 | the bytes are added to one direction of that user alone, up to the largest 64-bit number; the window's start stays |
| Tracker.UsageTracker.ResetUsage | src/limits/tracker.rs:286-295 | a known user's usage starts again from zero |
| Tracker.CountedAlways | src/limits/tracker.rs:119-178 | with removal and putting back as one step, under every interleaving a user's counter is the number of live accepted connections and within the limit |
| Tracker.StepCounted | src/limits/tracker.rs:119-178 | each step keeps that, and no counter is decremented at zero |
| Tracker.StepAccountedExactly | src/limits/tracker.rs:168-174 | with them split, a step loses connections if and only if a release finds no entry or a counter is put back over a new one |
| Tracker.ConnectWithinLimitExactly | src/limits/tracker.rs:137-153 | from any state within the limit, a step exceeds it if and only if it is a connection with the live ones at the limit and the counter behind them; while the account is kept, the counter is behind if and only if some of it is taken out |
| Tracker.LimitAlongExactly | src/limits/tracker.rs:119-178 | over every run of the split steps the limit holds throughout if and only if there is no such connection |
| Tracker.LimitFromNothing | src/limits/tracker.rs:64-72 | in particular from the empty tracker |
| Tracker.StepGoodExactly | src/limits/tracker.rs:119-178 | each of the split steps keeps account and limit if and only if it is none of three mishaps |
| Tracker.GoodAlongExactly | src/limits/tracker.rs:119-178 | over every run of the split steps, account and limit are kept throughout if and only if there is no mishap |
| Tracker.GoodFromNothing | src/limits/tracker.rs:64-72 | in particular from the empty tracker |
| Tracker.QuietRunIsGood | src/limits/tracker.rs:168-174 | both are kept over every run in which the user neither connects nor releases while a counter of the user's is taken out |
| Tracker.GapDefeatsLimit | src/limits/tracker.rs:168-174 | a run of six steps that exceeds a limit of one |
| Tracker.LostCountDefeatsLimit | src/limits/tracker.rs:168-174 | a run of seven steps that exceeds a limit of two by a connection while nothing is taken out |
| Tracker.AdjacentIsCleanup | src/limits/tracker.rs:168-174 | with nothing in between, the two steps are the one |
| Tracker.ActWithinBound | src/limits/tracker.rs:202-266 | each step keeps recorded and in-flight bytes within the bound, and recording conserves their sum when the bound fits in 64 bits |
| Tracker.BandwidthBound | src/limits/tracker.rs:202-266 | every interleaving of checks, records and resets with at most k transfers of at most B bytes in flight keeps recorded plus in-flight within the limit plus (k-1) times B |
| Tracker.BoundIsReached | src/limits/tracker.rs:229-242 | k transfers that each fit alone are all allowed |
| Tracker.LimitHoldsExactly | src/limits/tracker.rs:216-238 | whatever the period, with a clock that does not go back, one transfer of 64-bit size at a time never exceeds the limit in any run if and only if the limit is not the largest 64-bit number or the period is zero |
| Flood.CreatePeerArticle | src/peers.rs:678-693 | the site's name and a `!` are put in front of the first Path header, or the name in a new one at the end; every other header stays where it is |
| Flood.SkipExactly | src/peers.rs:696-705 | a peer is skipped if and only if its name is among the names in the Path headers |
| Flood.NamesGrow | src/peers.rs:678-693 | the names in Path afterwards are those before and the site's |
| Flood.NonPathKept | src/peers.rs:678-693 | no other header changes |
| Flood.SafeAgain | src/peers.rs:678-693 | a wire-safe article may be sent over the wire again |
| Flood.AcceptedFloodable | src/handlers/streaming.rs:27-41 | whatever input an article is accepted from, it has the shape that the results on flooding ask for |
| Flood.HopNames | src/peers.rs:651-675 | one forwarding of any article as parsed, its Message-ID and other headers changing as they may: the peer was not named, the holder's name joins the Path names, the body is normalised |
| Flood.HopExactly | src/peers.rs:651-675 | with wire-safe headers the stored article is the one sent with its body normalised |
| Flood.ChainState | src/peers.rs:656-705 | the Path names of the article at any site of a chain are those of the first and the sites before, and its holder is not among them |
| Flood.ChainKept | src/peers.rs:656-705 | a wire-safe article keeps every header but Path over the whole chain |
| Flood.ChainBody | src/handlers/utils.rs:105-114 | after any number of hops the body is the first one normalised |
| Flood.NeverReturns | src/peers.rs:656-705 | no article comes back to a site that has held it |
| Flood.FewerSitesLeft | src/peers.rs:656-705 | each hop leaves one site fewer that Path does not name |
| Flood.FloodTerminates | src/peers.rs:656-705 | a chain holds distinct sites and at most as many as the network, for every article as parsed |
| Flood.RouteExactly | src/peers.rs:656-705 | an article can be forwarded along a route, whatever else is on the connections, if and only if the sites are distinct and not named at first |
| PeerSync.ProcessGroupArticles | src/peers.rs:566-642 | exactly the group's fetched articles that do not name the peer are sent, each counted once as sent, skipped or failed |
| PeerSync.SyncPeerOnce | src/peers.rs:533-563 | what is sent is exactly the articles of matching groups that, when the group's turn comes, were inserted since the last synchronisation and do not name the peer; between the turns the store changes by any operations |
| PeerSync.SendsAtExactly | src/storage/sqlite.rs:458-482 | the listed ids are those of the group's rows inserted after the last synchronisation, all of them on the first |
| PeerSync.NeverOffered | src/peers.rs:373-391 | a row no younger than the last synchronisation is never offered again in any run whose synchronisations end no earlier than it was inserted |
| PeerSync.OfferedWhileNew | src/storage/sqlite.rs:458-482 | whatever the clock does, over any run a row is offered if and only if its group is listed while the last recorded end lies before its insertion |
| PeerSync.OfferedExactly | src/storage/sqlite.rs:458-482 | when ends are no earlier than the insertion, if and only if the row is younger than the last end and its group is listed before the next |
| PeerSync.StoredBehindTheListing | src/peers.rs:544-560 | a run from the empty store after which an article is stored and not offered, and is not by anything that follows |
| PeerSync.StoredInTheSameSecond | src/storage/sqlite.rs:458-482 | a run after which an article stored in the second in which a synchronisation ended is not offered by the next, nor by anything that follows |
| Delivery.OfferTraced | src/peers.rs:651-675 | a synchronisation keeps every copy and lets copies name only sites that hold the article or were named at first; the peer holds it afterwards unless it was named at first |
| Delivery.Reached | src/peers.rs:533-563 | if every holder synchronises with each of its peers some time after it has come to hold the article, every site reachable by peers comes to hold it, in whatever order they do |
| Delivery.OnlyPeers | src/peers.rs:533-563 | a site comes to hold it only by a synchronisation with it |
| Moderation.PairUp | src/filters/moderation.rs:31-41 | the two filtered lists stay aligned with the positions of the group's moderators |
| Moderation.VerifyPairs | src/filters/moderation.rs:52-86 | the first pair that is malformed or does not verify decides |
| Moderation.SignatureExactly | src/filters/moderation.rs:52-86 | of a signature's words, however spaced, the first is the version, the second names the signed headers and the others are the signature, one to a line; it is malformed if and only if there are fewer than two, and accepted if and only if it verifies against the article with that approval alone |
| Moderation.WordsSpaced | src/filters/moderation.rs:53 | the words of a text are what stands between its runs of white space |
| Moderation.ValuesExactly | src/handlers/utils.rs:39-47 | the values of a header are those at all its positions, in order |
| Moderation.OthersExactly | src/filters/moderation.rs:66-72 | the headers of all other names are left, in order |
| Moderation.ValidateGroup | src/filters/moderation.rs:26-87 | the verdict names what the group misses, the first in order |
| Moderation.AcceptedExactly | src/filters/moderation.rs:26-87 | only an approved article is accepted, and no approved article is refused |
| Moderation.Validate | src/filters/moderation.rs:15-91 | accepts if and only if, for every moderated listed group, some approval is by a moderator and every such approval has at its own position a well-formed signature that verifies; otherwise the first other group decides |
| Moderation.WordsOfLines | src/filters/moderation.rs:57-64 | the signature data handed on has the same words, one to a line |
| Moderation.StrayApproval | src/filters/moderation.rs:66-78 | a last approval by nobody who moderates the group changes nothing |
| RuleLookup.SortIsStable | src/config.rs:553-559 | sorting by key orders the matches and keeps the order of equal keys |
| RuleLookup.FirstOfStable | src/config.rs:561-568 | the first after any stable sort is the earliest of the most specific |
| RuleLookup.FindRule | src/config.rs:573-607 | the deciding rule: the first exact rule if it carries the value, else of the patterns that match and carry it the one with the fewest positions of `*` or `?`, of those the longest in bytes, of those the first |
| RuleLookup.BestIsByKey | src/config.rs:553-559 | the order so spelled out is the order of the sort keys |
| RuleLookup.ChoosesOne | src/config.rs:526-607 | every list of rules chooses, and chooses one |
| RuleLookup.RetentionForGroup | src/config.rs:526-570 | that rule's days, none when they are not positive, whatever other rules say |
| RuleLookup.MaxSizeForGroup | src/config.rs:573-607 | that rule's size, none exactly when no rule decides |
| RuleLookup.ReorderKeepsChoice | src/config.rs:537-568 | reordering rules whose candidates have distinct keys keeps the choice |
| RuleLookup.AddedRuleIgnored | src/config.rs:526-607 | adding a rule that is no candidate, or less specific than one, or a later rule for the very group, keeps the choice |

## Left out

- Wire.ReadMessage: requires a terminator line in the input, because on any other input the server's loop never ends; `Wire.ReadHaltsExactly` states that.
- MessageId.UnescapeMessageId: the comment depth is unbounded, where the server counts in 32 bits.
- Store.ArticleStore.ListGroups: a listing is taken as a whole, not as a stream that later changes may overtake.
- Store.ArticleStore.StoreArticle: article numbers and sizes are unbounded, where the server has signed 64-bit columns; storage failures other than a missing Message-ID and the two keys are not modelled. `src/storage/postgres.rs` issues the same statements.
- StoreRuns.AgedAlways: each store is one step; interleaved statements are the subject of ConcurrentAge.
- Wildmat.WildmatMatches: matching is defined for the emitted fragment; classes that are empty, nested, reversed in a range or hold set operators are outside `Supported`, and nothing is claimed of them.
- Intake.IHaveArticle: the control-message handling, the bandwidth check and the validation filters are parameters whose effects on the store are not modelled; the handler is one step here, and IntakeRace takes its look-up and the statements of the store apart.
- Intake.ExactlyOnce: requires the offered id to be the header's and not empty; the two runs named above show both are needed.
- IntakeRace.OnceExactly: deletions are not interleaved.
- Tracker.CountedAlways: assumes every accepted connection is released once under its own name; the loading and saving of usage, and the cache of limits, are not modelled.
- Tracker.UsageTracker.CheckBandwidth: times and periods are whole seconds and periods are unbounded.
- Flood.FloodTerminates: peers' names are the sites' own names, without `!` or surrounding white space; what a peer answers on the wire is not modelled.
- PeerSync.SyncPeerOnce: the list of groups is read at the start, and operations come between the groups' turns, not inside one.
- PeerSync.OfferedExactly: a listing counts as offering, although a transfer may fail; the server does not try again.
- Delivery.Reached: a synchronisation is one step that offers the article and succeeds; when it offers it is what `PeerSync.OfferedExactly` tells.
- Moderation.Validate: signature verification, the moderator lists and the moderated flag are parameters; an error of the backend counts as no.
- RuleLookup.FindRule: pattern matching is a parameter; the pattern length is not narrowed to 32 bits. The sort is a functional one, and the result holds of every stable sort.
- Retention.CleanupExpiredArticles: retention periods and Expires times are parameters in seconds; failing calls are not modelled.
- The JSON form of stored headers is the identity; calendar dates, digests and PGP are not modelled.
- Sockets, TLS, the WebSocket bridge, scheduling, tracing, the command line, administration and the remaining commands are not modelled: no algorithm of theirs meets the properties above.
