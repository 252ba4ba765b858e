/** Flooding an article through a network of peers (src/peers.rs): each site puts
    its name in front of the Path header, and no site is offered an article whose
    Path already names it. */
module Flood {
  import opened Text
  import opened Wire
  import opened HeaderParser
  import opened Relay
  import M = MessageId

  predicate IsPath(h: Header) { EqIgnoreCase(h.name, "Path") }

  /** Some Path header has a segment that is the peer's name. */
  predicate ShouldSkip(article: Message, sitename: string) {
    exists h :: h in article.headers && IsPath(h)
                && exists segment :: segment in Split(h.value, '!') && Trim(segment) == sitename
  }

  /** The position of the first Path header, or the number of headers. */
  function PathIndex(hs: seq<Header>): (i: nat)
    ensures i <= |hs| && (i < |hs| ==> IsPath(hs[i])) && forall k :: 0 <= k < i ==> !IsPath(hs[k])
  {
    if hs == [] || IsPath(hs[0]) then 0 else 1 + PathIndex(hs[1..])
  }

  function Prefixed(hs: seq<Header>, site: string): seq<Header> {
    var i := PathIndex(hs);
    if i == |hs| then hs + [Header("Path", site)]
    else hs[i := Header(hs[i].name, site + "!" + hs[i].value)]
  }

  method CreatePeerArticle(orig: Message, siteName: string) returns (article: Message)
    ensures article == orig.(headers := Prefixed(orig.headers, siteName))
    ensures article.body == orig.body
    ensures forall i | 0 <= i < |orig.headers| && EqIgnoreCase(orig.headers[i].name, "Path")
                       && (forall k :: 0 <= k < i ==> !EqIgnoreCase(orig.headers[k].name, "Path")) ::
              article.headers == orig.headers[i := Header(orig.headers[i].name, siteName + "!" + orig.headers[i].value)]
    ensures (forall k :: 0 <= k < |orig.headers| ==> !EqIgnoreCase(orig.headers[k].name, "Path")) ==>
              article.headers == orig.headers + [Header("Path", siteName)]
  {
    var headers := orig.headers;
    var i := 0;
    while i < |headers| && !EqIgnoreCase(headers[i].name, "Path")
      invariant 0 <= i <= |headers| && PathIndex(headers) >= i
    {
      i := i + 1;
    }
    if i < |headers| {
      headers := headers[i := Header(headers[i].name, siteName + "!" + headers[i].value)];
    } else {
      headers := headers + [Header("Path", siteName)];
    }
    article := orig.(headers := headers);
  }

  // ---- The names in Path ----

  function Trimmings(parts: seq<string>): set<string> { set segment | segment in parts :: Trim(segment) }

  function Names(path: string): set<string> { Trimmings(Split(path, '!')) }

  function PathNames(hs: seq<Header>): set<string> {
    if hs == [] then {} else (if IsPath(hs[0]) then Names(hs[0].value) else {}) + PathNames(hs[1..])
  }

  lemma {:induction false} NameInPath(hs: seq<Header>, name: string)
    ensures name in PathNames(hs) <==> exists h :: h in hs && IsPath(h) && name in Names(h.value)
  {
    if hs != [] {
      NameInPath(hs[1..], name);
      assert forall h :: h in hs <==> h == hs[0] || h in hs[1..];
    }
  }

  lemma SkipExactly(article: Message, sitename: string)
    ensures ShouldSkip(article, sitename) <==> sitename in PathNames(article.headers)
  {
    NameInPath(article.headers, sitename);
    if ShouldSkip(article, sitename) {
      var h :| h in article.headers && IsPath(h)
               && exists segment :: segment in Split(h.value, '!') && Trim(segment) == sitename;
      assert sitename in Names(h.value);
    }
  }

  /** A site name that can be told apart in a Path header. */
  predicate SiteName(s: string) { '!' !in s && Trimmed(s) && OneLine(s) }

  lemma PrefixedNames(site: string, path: string)
    requires SiteName(site)
    ensures Names(site + "!" + path) == {site} + Names(path)
    ensures Names(site) == {site}
  {
    SplitCons(site, '!', path);
    TrimIsTrimmed(site);
    assert site[..|site|] == site;
    var i := IndexOf(site, '!');
    assert i == |site|;
    var all := [site] + Split(path, '!');
    assert forall s :: s in all <==> s == site || s in Split(path, '!');
  }

  lemma PathNamesCons(h: Header, rest: seq<Header>)
    ensures PathNames([h] + rest) == (if IsPath(h) then Names(h.value) else {}) + PathNames(rest)
  {
    assert ([h] + rest)[1..] == rest;
  }

  /** Only the first Path header is prefixed, or a new one comes at the end. */
  lemma PrefixedCons(h: Header, rest: seq<Header>, site: string)
    ensures Prefixed([h] + rest, site)
         == if IsPath(h) then [Header(h.name, site + "!" + h.value)] + rest else [h] + Prefixed(rest, site)
    ensures Prefixed([], site) == [Header("Path", site)]
  {
    var hs := [h] + rest;
    assert hs[1..] == rest && PathIndex(hs) == if IsPath(h) then 0 else 1 + PathIndex(rest);
  }

  lemma {:induction false} NamesGrow(hs: seq<Header>, site: string)
    requires SiteName(site)
    ensures PathNames(Prefixed(hs, site)) == PathNames(hs) + {site}
  {
    var path := Header("Path", site);
    assert IsPath(path) && PathNames([]) == {};
    PrefixedNames(site, "");
    if hs == [] {
      PrefixedCons(path, [], site);
      PathNamesCons(path, []);
      assert [path] + [] == [path];
    } else {
      var h, rest := hs[0], hs[1..];
      assert hs == [h] + rest;
      assert IsPath(h) <==> IsPath(Header(h.name, site + "!" + h.value));
      hide PathNames, Prefixed, Names, SiteName, IsPath;
      PrefixedNames(site, h.value);
      PrefixedCons(h, rest, site);
      PathNamesCons(h, rest);
      PathNamesCons(Header(h.name, site + "!" + h.value), rest);
      PathNamesCons(h, Prefixed(rest, site));
      if !IsPath(h) { NamesGrow(rest, site); }
    }
  }

  lemma {:induction false} NonPathKept(hs: seq<Header>, site: string)
    ensures WithoutName(Prefixed(hs, site), "Path") == WithoutName(hs, "Path")
  {
    if hs == [] {
      assert Prefixed(hs, site)[1..] == [];
    } else if IsPath(hs[0]) {
      assert Prefixed(hs, site)[1..] == hs[1..];
    } else {
      NonPathKept(hs[1..], site);
      assert Prefixed(hs, site)[0] == hs[0] && Prefixed(hs, site)[1..] == Prefixed(hs[1..], site);
    }
  }

  lemma SafeAgain(hs: seq<Header>, site: string)
    requires WireSafe(hs) && SiteName(site)
    ensures WireSafe(Prefixed(hs, site))
  {
    var r := Prefixed(hs, site);
    forall i | 0 <= i < |r|
      ensures HeaderSafe(r[i], i == 0)
    {
      if i < |hs| {
        assert HeaderSafe(hs[i], i == 0);
      } else {
        assert r[i] == Header("Path", site) && "Path"[0] == 'P';
      }
      if IsPath(r[i]) {
        assert |r[i].name| == |Lower("Path")|;
        assert |Lower("Message-ID")| == 10;
      }
      if i == PathIndex(hs) && i < |hs| {
        assert OneLine(site) && OneLine(hs[i].value) && OneLine(site + "!");
        assert site == "" || r[i].value[0] == site[0];
      }
    }
  }

  // ---- What crosses the wire of any parsed article ----

  predicate Shaped(hs: seq<Header>) { AllClean(hs) && !SomeFold(hs) }

  /** The shape of every article a site holds: headers as the parser gives them, with a
      Message-ID and a Date. */
  predicate Floodable(article: Message) {
    Shaped(article.headers) && HasHeader(article.headers, "Message-ID") && HasHeader(article.headers, "Date")
  }

  /** Whatever input an article is accepted from, it can be flooded. */
  lemma AcceptedFloodable(input: string, newId: string, now: string)
    requires Accepted(input, newId, now).Some? && OneLine(newId) && OneLine(now)
    ensures Floodable(Accepted(input, newId, now).value)
  {
    var text := Block(input).0;
    ParsedNeverFolds(text);
    var read := ParseBlock(text).value.0;
    var msg := Parse(text).value;
    ParsedShape(read);
    EnsuredShape(msg, "Message-ID", newId);
    var withId := Ensured(msg, "Message-ID", newId);
    EnsuredShape(withId, "Date", now);
    var dated := Ensured(withId, "Date", now);
    RewrittenShape(dated);
    HeadersKeepNames(dated, "Message-ID");
    HeadersKeepNames(dated, "Date");
  }

  lemma ParsedShape(read: seq<Header>)
    requires Shaped(read)
    ensures Shaped(MapIds(read, M.Unescape))
  {
    var hs := MapIds(read, M.Unescape);
    forall i | 0 <= i < |hs|
      ensures Clean(hs[i])
    {
      assert read[i] in read;
      UnescapedOneLine(read[i].value);
    }
  }

  lemma RewrittenShape(msg: Message)
    requires Shaped(msg.headers)
    ensures Shaped(EscapeIds(msg).headers)
  {
    var hs := EscapeIds(msg).headers;
    forall i | 0 <= i < |hs|
      ensures Clean(hs[i])
    {
      assert msg.headers[i] in msg.headers;
      EscapeOneLine(msg.headers[i].value);
    }
  }

  lemma EnsuredNames(msg: Message, name: string, value: string)
    ensures HasHeader(Ensured(msg, name, value).headers, name)
    ensures forall n :: HasHeader(msg.headers, n) ==> HasHeader(Ensured(msg, name, value).headers, n)
  {
    var hs := Ensured(msg, name, value).headers;
    assert EqIgnoreCase(name, name);
    hide EqIgnoreCase;
    if !HasHeader(msg.headers, name) {
      assert hs[|msg.headers|] == Header(name, value);
      assert forall h :: h in msg.headers ==> h in hs;
    }
  }

  lemma AppendedShape(hs: seq<Header>, h: Header)
    requires Shaped(hs) && Clean(h) && !IsBlank(h.name[0])
    ensures Shaped(hs + [h])
  {
    var more := hs + [h];
    forall i | 0 < i < |more|
      ensures more[i].name == "" || !IsBlank(more[i].name[0])
    {
      if i < |hs| { assert more[i] == hs[i]; }
    }
  }

  lemma EnsuredShape(msg: Message, name: string, value: string)
    requires Shaped(msg.headers) && OneLine(value) && (name == "Message-ID" || name == "Date")
    ensures Shaped(Ensured(msg, name, value).headers) && HasHeader(Ensured(msg, name, value).headers, name)
    ensures forall n :: HasHeader(msg.headers, n) ==> HasHeader(Ensured(msg, name, value).headers, n)
  {
    EnsuredNames(msg, name, value);
    var h := Header(name, value);
    assert Clean(h) && (name[0] == 'M' || name[0] == 'D');
    hide Shaped, HasHeader;
    AppendedShape(msg.headers, h);
  }

  /** Of a Path value, leading blanks do not count. */
  lemma {:induction false} NamesSkipBlanks(v: string)
    ensures Names(SkipBlanks(v)) == Names(v)
  {
    if v != "" && IsBlank(v[0]) {
      NamesSkipBlanks(v[1..]);
      NamesTail(v);
    }
  }

  lemma NamesTail(v: string)
    requires v != "" && IsBlank(v[0])
    ensures Names(v[1..]) == Names(v)
  {
    var j := IndexOf(v[1..], '!');
    SegmentBlank(v[0], v[1..][..j]);
    assert v[..j + 1] == [v[0]] + v[1..][..j];
    if j == |v[1..]| {
      assert v[..j + 1] == v && v[1..][..j] == v[1..];
      assert Split(v, '!') == [v] && Split(v[1..], '!') == [v[1..]];
    } else {
      assert v[j + 2..] == v[1..][j + 1..];
      NamesCons(v[..j + 1], Split(v[j + 2..], '!'));
      NamesCons(v[1..][..j], Split(v[j + 2..], '!'));
    }
  }

  lemma SegmentBlank(c: char, s: string)
    requires IsBlank(c)
    ensures Trim([c] + s) == Trim(s)
  {
    assert ([c] + s)[1..] == s;
  }

  lemma NamesCons(head: string, tail: seq<string>)
    ensures Trimmings([head] + tail) == {Trim(head)} + Trimmings(tail)
  {
    var all := [head] + tail;
    assert forall s :: s in all <==> s == head || s in tail;
  }

  /** The header as the receiver has it. */
  function Arrived(h: Header): Header { Rewrite(Header(Unstuffed(h.name), SkipBlanks(h.value))) }

  /** Its name, if it is one of those looked for, and its Path names have not changed. */
  lemma ArrivedNames(h: Header, name: string)
    requires name == "" || name[0] != '.'
    ensures EqIgnoreCase(Arrived(h).name, name) <==> EqIgnoreCase(h.name, name)
    ensures IsPath(h) ==> Names(Arrived(h).value) == Names(h.value)
  {
    var n := Unstuffed(h.name);
    if n != h.name {
      assert Lower(n)[0] == '.' && Lower(h.name)[0] == '.';
      if name != "" { assert Lower(name)[0] != '.'; }
    }
    if IsPath(h) {
      assert |h.name| == |Lower("Path")| == 4 && |Lower("Message-ID")| == 10;
      assert |n| <= 4 && |Lower(n)| != 10;
      NamesSkipBlanks(h.value);
    }
  }

  /** Headers of the same number, each the arrived form of the other, name the same sites. */
  lemma {:induction false} ArrivedPathNames(hs: seq<Header>, got: seq<Header>)
    requires |got| == |hs| && forall i :: 0 <= i < |hs| ==> got[i] == Arrived(hs[i])
    ensures PathNames(got) == PathNames(hs)
  {
    if hs != [] {
      ArrivedNames(hs[0], "Path");
      ArrivedPathNames(hs[1..], got[1..]);
    }
  }

  lemma ArrivedHas(hs: seq<Header>, got: seq<Header>, name: string)
    requires |got| == |hs| && forall i :: 0 <= i < |hs| ==> got[i] == Arrived(hs[i])
    requires HasHeader(hs, name) && (name == "" || name[0] != '.')
    ensures HasHeader(got, name)
  {
    var i :| 0 <= i < |hs| && EqIgnoreCase(hs[i].name, name);
    ArrivedNames(hs[i], name);
    assert got[i] in got;
  }

  // ---- Relay runs ----

  /** One hop of a chain: what a peer may be sent beside the article. */
  datatype Hop = Hop(rest: string, newId: string, now: string)

  /** What a peer stores of an article that `site` sends it. */
  function Forwarded(site: string, article: Message, hop: Hop): Option<Message> {
    Accepted(OnWire(article.(headers := Prefixed(article.headers, site))) + hop.rest, hop.newId, hop.now)
  }

  /** `article`, held by `site`, is offered to and stored by `peer` as `stored`. */
  predicate Forwards(site: string, article: Message, peer: string, hop: Hop, stored: Message) {
    !ShouldSkip(article, peer) && Forwarded(site, article, hop) == Some(stored)
  }

  /** A chain of forwardings through the network: sites[i] holds articles[i]. */
  ghost predicate Chain(net: set<string>, sites: seq<string>, articles: seq<Message>, hops: seq<Hop>) {
    |sites| == |articles| == |hops| + 1
    && (forall s :: s in sites ==> s in net)
    && (forall i {:trigger hops[i]} :: 0 <= i < |hops| ==>
          sites[i + 1] != sites[i] && Forwards(sites[i], articles[i], sites[i + 1], hops[i], articles[i + 1]))
  }

  lemma PrefixedKeepsNames(hs: seq<Header>, site: string, name: string)
    requires HasHeader(hs, name)
    ensures HasHeader(Prefixed(hs, site), name)
  {
    var i :| 0 <= i < |hs| && EqIgnoreCase(hs[i].name, name);
    assert Prefixed(hs, site)[i].name == hs[i].name;
    assert Prefixed(hs, site)[i] in Prefixed(hs, site);
  }

  lemma PrefixedShape(hs: seq<Header>, site: string)
    requires Shaped(hs) && SiteName(site)
    ensures Shaped(Prefixed(hs, site))
  {
    var r := Prefixed(hs, site);
    forall i | 0 <= i < |r|
      ensures Clean(r[i])
      ensures i < |hs| ==> r[i].name == hs[i].name
    {
      if i < |hs| { assert hs[i] in hs; }
      assert OneLine(site) && OneLine(site + "!");
    }
    forall i | 0 < i < |r|
      ensures r[i].name == "" || !IsBlank(r[i].name[0])
    {
    }
  }

  /** One forwarding over the wire, of any article a site holds: the peer was not named, the
      holder's name joins the Path names, and the body is normalised. */
  lemma HopNames(site: string, article: Message, peer: string, hop: Hop, stored: Message)
    requires SiteName(site) && Floodable(article) && Forwards(site, article, peer, hop, stored)
    ensures Floodable(stored)
    ensures peer !in PathNames(article.headers)
    ensures PathNames(stored.headers) == PathNames(article.headers) + {site}
    ensures stored.body == Normalised(article.body)
  {
    var sent := article.(headers := Prefixed(article.headers, site));
    PrefixedShape(article.headers, site);
    NamesGrow(article.headers, site);
    SkipExactly(article, peer);
    PrefixedKeepsNames(article.headers, site, "Message-ID");
    PrefixedKeepsNames(article.headers, site, "Date");
    SentIsStored(sent, hop, stored);
  }

  lemma SentIsAccepted(sent: Message, hop: Hop)
    requires Floodable(sent)
    ensures Accepted(OnWire(sent) + hop.rest, hop.newId, hop.now).Some?
  {
    hide OnWire;
    ReceivedAt(sent, hop.rest);
  }

  lemma SentIsStored(sent: Message, hop: Hop, stored: Message)
    requires Floodable(sent) && Accepted(OnWire(sent) + hop.rest, hop.newId, hop.now) == Some(stored)
    ensures Floodable(stored)
    ensures PathNames(stored.headers) == PathNames(sent.headers)
    ensures stored.body == Normalised(sent.body)
  {
    var hs, input := sent.headers, OnWire(sent) + hop.rest;
    hide OnWire, Normalised, Accepted, Received, PathNames, AllClean, SomeFold, HasHeader;
    ReceivedAt(sent, hop.rest);
    var got := Received(input).value.0;
    ArrivedHas(hs, got.headers, "Message-ID");
    ArrivedHas(hs, got.headers, "Date");
    AcceptedIsReceived(input, hop.newId, hop.now);
    ArrivedPathNames(hs, got.headers);
    ReceivedClean(input);
    ArrivedUnfolded(hs, got.headers);
  }

  lemma ArrivedUnfolded(hs: seq<Header>, got: seq<Header>)
    requires Shaped(hs) && |got| == |hs| && forall i :: 0 <= i < |hs| ==> got[i] == Arrived(hs[i])
    ensures !SomeFold(got)
  {
    forall i | 0 < i < |hs|
      ensures got[i].name == "" || !IsBlank(got[i].name[0])
    {
      assert hs[i] in hs;
    }
  }

  /** With wire-safe headers nothing else changes. */
  lemma HopExactly(site: string, article: Message, peer: string, hop: Hop, stored: Message)
    requires SiteName(site) && Floodable(article) && WireSafe(article.headers)
    requires Forwards(site, article, peer, hop, stored)
    ensures stored == Message(Prefixed(article.headers, site), Normalised(article.body))
    ensures WireSafe(stored.headers)
    ensures WithoutName(stored.headers, "Path") == WithoutName(article.headers, "Path")
  {
    var sent := article.(headers := Prefixed(article.headers, site));
    SafeAgain(article.headers, site);
    RelayRoundTrip(sent, hop.rest);
    PrefixedKeepsNames(article.headers, site, "Message-ID");
    PrefixedKeepsNames(article.headers, site, "Date");
    AcceptedIsReceived(OnWire(sent) + hop.rest, hop.newId, hop.now);
    NonPathKept(article.headers, site);
  }

  /** A chain through a network of well-named sites, of an article as parsed that does not yet
      name its first holder. */
  ghost predicate Flooding(net: set<string>, sites: seq<string>, articles: seq<Message>, hops: seq<Hop>) {
    Chain(net, sites, articles, hops)
    && (forall s :: s in net ==> SiteName(s))
    && Floodable(articles[0]) && sites[0] !in PathNames(articles[0].headers)
  }

  function Visited(sites: seq<string>, k: nat): (r: set<string>)
    requires k <= |sites|
    ensures forall i :: 0 <= i < k ==> sites[i] in r
    ensures forall s :: s in r ==> exists i :: 0 <= i < k && sites[i] == s
  {
    if k == 0 then {} else Visited(sites, k - 1) + {sites[k - 1]}
  }

  lemma ChainStep(net: set<string>, sites: seq<string>, articles: seq<Message>, hops: seq<Hop>, k: nat)
    requires Flooding(net, sites, articles, hops) && k < |hops| && Floodable(articles[k])
    ensures sites[k] in net && sites[k + 1] != sites[k]
    ensures Floodable(articles[k + 1])
    ensures sites[k + 1] !in PathNames(articles[k].headers)
    ensures PathNames(articles[k + 1].headers) == PathNames(articles[k].headers) + {sites[k]}
    ensures articles[k + 1].body == Normalised(articles[k].body)
  {
    var hop := hops[k];
    assert sites[k] in sites;
    HopNames(sites[k], articles[k], sites[k + 1], hop, articles[k + 1]);
  }

  /** The article at the k-th site of a chain, in terms of the first. */
  lemma {:induction false} ChainState(net: set<string>, sites: seq<string>, articles: seq<Message>, hops: seq<Hop>, k: nat)
    requires Flooding(net, sites, articles, hops) && k < |sites|
    ensures Floodable(articles[k])
    ensures PathNames(articles[k].headers) == PathNames(articles[0].headers) + Visited(sites, k)
    ensures sites[k] !in PathNames(articles[k].headers)
    ensures k > 0 ==> articles[k].body == Normalised(articles[k - 1].body)
  {
    hide Floodable, PathNames, SiteName, Forwards;
    if k > 0 {
      ChainState(net, sites, articles, hops, k - 1);
      ChainStep(net, sites, articles, hops, k - 1);
      AddedLast(PathNames(articles[0].headers), Visited(sites, k - 1), sites[k - 1]);
    }
  }

  /** A wire-safe article keeps every header but Path over the whole chain. */
  lemma {:induction false} ChainKept(net: set<string>, sites: seq<string>, articles: seq<Message>, hops: seq<Hop>, k: nat)
    requires Flooding(net, sites, articles, hops) && k < |sites| && WireSafe(articles[0].headers)
    ensures WireSafe(articles[k].headers) && WithoutName(articles[k].headers, "Path") == WithoutName(articles[0].headers, "Path")
  {
    hide Floodable, PathNames, SiteName, Forwards, WireSafe, WithoutName;
    if k > 0 {
      ChainKept(net, sites, articles, hops, k - 1);
      ChainState(net, sites, articles, hops, k - 1);
      assert sites[k - 1] in sites && hops[k - 1] == hops[k - 1];
      HopExactly(sites[k - 1], articles[k - 1], sites[k], hops[k - 1], articles[k]);
    }
  }

  lemma AddedLast<T>(a: set<T>, b: set<T>, x: T)
    ensures a + b + {x} == a + (b + {x})
  {
  }

  /** Its body is the first one with its lines ended, however many hops it made. */
  lemma {:induction false} ChainBody(net: set<string>, sites: seq<string>, articles: seq<Message>, hops: seq<Hop>, k: nat)
    requires Flooding(net, sites, articles, hops) && 0 < k < |sites|
    ensures articles[k].body == Normalised(articles[0].body)
  {
    ChainState(net, sites, articles, hops, k);
    if k > 1 {
      ChainBody(net, sites, articles, hops, k - 1);
      NormalisedOnce(articles[0].body);
    }
  }

  /** No article comes back to a site that has held it. */
  lemma NeverReturns(net: set<string>, sites: seq<string>, articles: seq<Message>, hops: seq<Hop>, i: nat, j: nat)
    requires Flooding(net, sites, articles, hops) && i < j < |sites|
    ensures sites[i] != sites[j]
  {
    ChainState(net, sites, articles, hops, j);
    assert sites[i] in Visited(sites, j);
  }

  /** Each hop leaves fewer sites that are not named in the Path. */
  lemma FewerSitesLeft(net: set<string>, sites: seq<string>, articles: seq<Message>, hops: seq<Hop>, k: nat)
    requires Flooding(net, sites, articles, hops) && k < |hops|
    ensures |net - PathNames(articles[k + 1].headers)| + 1 == |net - PathNames(articles[k].headers)|
  {
    ChainState(net, sites, articles, hops, k);
    ChainStep(net, sites, articles, hops, k);
    OneFewer(net, PathNames(articles[k].headers), sites[k]);
  }

  lemma OneFewer(net: set<string>, named: set<string>, site: string)
    requires site in net && site !in named
    ensures |net - (named + {site})| + 1 == |net - named|
  {
    assert net - (named + {site}) == (net - named) - {site};
  }

  /** So a chain holds distinct sites and is no longer than the network. */
  lemma FloodTerminates(net: set<string>, sites: seq<string>, articles: seq<Message>, hops: seq<Hop>)
    requires Flooding(net, sites, articles, hops)
    ensures forall i, j :: 0 <= i < j < |sites| ==> sites[i] != sites[j]
    ensures |sites| <= |net|
  {
    forall i, j | 0 <= i < j < |sites|
      ensures sites[i] != sites[j]
    {
      NeverReturns(net, sites, articles, hops, i, j);
    }
    DistinctCount(net, sites);
  }

  // ---- Which routes can be travelled ----

  lemma ForwardedAlways(site: string, article: Message, hop: Hop)
    requires SiteName(site) && Floodable(article)
    ensures Forwarded(site, article, hop).Some?
  {
    PrefixedShape(article.headers, site);
    PrefixedKeepsNames(article.headers, site, "Message-ID");
    PrefixedKeepsNames(article.headers, site, "Date");
    SentIsAccepted(article.(headers := Prefixed(article.headers, site)), hop);
  }

  /** The sites of a route are distinct and the first article names none of them. */
  predicate FreshRoute(sites: seq<string>, article: Message) {
    (forall i, j :: 0 <= i < j < |sites| ==> sites[i] != sites[j])
    && (forall s :: s in sites ==> s !in PathNames(article.headers))
  }

  /** An article can be forwarded along a route, whatever else is on the connections, exactly
      when the route is fresh: Path stops every loop and nothing else. */
  lemma RouteExactly(net: set<string>, sites: seq<string>, article: Message, hops: seq<Hop>)
    requires |sites| == |hops| + 1 && (forall s :: s in sites ==> s in net) && (forall s :: s in net ==> SiteName(s))
    requires Floodable(article) && sites[0] !in PathNames(article.headers)
    ensures (exists articles :: |articles| > 0 && articles[0] == article && Chain(net, sites, articles, hops))
            <==> FreshRoute(sites, article)
  {
    if articles :| |articles| > 0 && articles[0] == article && Chain(net, sites, articles, hops) {
      FloodTerminates(net, sites, articles, hops);
      forall i | 0 <= i < |sites|
        ensures sites[i] !in PathNames(article.headers)
      {
        ChainState(net, sites, articles, hops, i);
      }
    }
    if FreshRoute(sites, article) {
      var articles := Travel(net, sites, article, hops);
    }
  }

  lemma {:induction false} Travel(net: set<string>, sites: seq<string>, article: Message, hops: seq<Hop>)
      returns (articles: seq<Message>)
    requires |sites| == |hops| + 1 && (forall s :: s in sites ==> s in net) && (forall s :: s in net ==> SiteName(s))
    requires Floodable(article) && FreshRoute(sites, article)
    ensures |articles| > 0 && articles[0] == article && Chain(net, sites, articles, hops)
    decreases |hops|
  {
    hide Floodable, PathNames, SiteName, Forwards;
    if hops == [] {
      articles := [article];
    } else {
      var last := |hops| - 1;
      var before := Travel(net, sites[..last + 1], article, hops[..last]);
      assert sites[0] in sites && sites[last] in sites && sites[last + 1] in sites;
      ChainState(net, sites[..last + 1], before, hops[..last], last);
      assert sites[last + 1] !in Visited(sites[..last + 1], last);
      var stored := TravelStep(sites[last], before[last], sites[last + 1], hops[last]);
      articles := before + [stored];
      forall i | 0 <= i < |hops|
        ensures sites[i + 1] != sites[i] && Forwards(sites[i], articles[i], sites[i + 1], hops[i], articles[i + 1])
      {
        if i < last { assert hops[..last][i] == hops[i]; }
      }
    }
  }

  lemma TravelStep(site: string, article: Message, peer: string, hop: Hop) returns (stored: Message)
    requires SiteName(site) && Floodable(article) && peer !in PathNames(article.headers)
    ensures Forwards(site, article, peer, hop, stored)
  {
    ForwardedAlways(site, article, hop);
    SkipExactly(article, peer);
    stored := Forwarded(site, article, hop).value;
  }

  lemma {:induction false} DistinctCount(net: set<string>, sites: seq<string>)
    requires forall s :: s in sites ==> s in net
    requires forall i, j :: 0 <= i < j < |sites| ==> sites[i] != sites[j]
    ensures |sites| <= |net|
  {
    if sites != [] {
      var rest := sites[1..];
      assert sites[0] in net;
      forall s | s in rest
        ensures s in net - {sites[0]}
      {
        var j :| 0 <= j < |rest| && rest[j] == s;
        assert sites[j + 1] == s && s in sites;
      }
      DistinctCount(net - {sites[0]}, rest);
    }
  }
}
