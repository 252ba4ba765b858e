/** Which sites of a network come to hold an article (src/peers.rs): each keeps the first copy it
    is sent, and each synchronisation with a peer sends the copy unless its Path names the peer. */
module Delivery {
  import opened Text
  import opened Wire
  import opened HeaderParser
  import opened Relay
  import opened Flood

  /** A site's synchronisation with a peer, in which the article is offered. */
  datatype Sync = Sync(site: string, peer: string, hop: Hop)

  /** Who holds which copy. */
  type Holders = map<string, Message>

  function Offer(h: Holders, s: Sync): Holders {
    if s.site !in h || s.peer in h || ShouldSkip(h[s.site], s.peer) then h
    else
      match Forwarded(s.site, h[s.site], s.hop)
      case None => h
      case Some(copy) => h[s.peer := copy]
  }

  function OfferAll(h: Holders, syncs: seq<Sync>): Holders
    decreases |syncs|
  {
    if syncs == [] then h else OfferAll(Offer(h, syncs[0]), syncs[1..])
  }

  /** Every copy is one that can be flooded on, and names only sites that the first named or
      that hold the article. */
  ghost predicate Traced(h: Holders, first: Message) {
    forall v :: v in h ==>
      SiteName(v) && Floodable(h[v]) && forall n :: n in PathNames(h[v].headers) ==> n in PathNames(first.headers) || n in h
  }

  lemma OfferTraced(h: Holders, s: Sync, first: Message)
    requires Traced(h, first) && SiteName(s.peer)
    ensures Traced(Offer(h, s), first)
    ensures h.Keys <= Offer(h, s).Keys && forall v :: v in h ==> Offer(h, s)[v] == h[v]
    ensures s.site in h ==> s.peer in Offer(h, s) || s.peer in PathNames(first.headers)
  {
    hide SiteName, Floodable, PathNames, Forwarded, ShouldSkip;
    if s.site in h {
      SkipExactly(h[s.site], s.peer);
      ForwardedAlways(s.site, h[s.site], s.hop);
      if s.peer !in h && !ShouldSkip(h[s.site], s.peer) {
        var copy := Forwarded(s.site, h[s.site], s.hop).value;
        HopNames(s.site, h[s.site], s.peer, s.hop, copy);
      }
    }
  }

  lemma {:induction false} AllTraced(h: Holders, syncs: seq<Sync>, first: Message)
    requires Traced(h, first) && forall s :: s in syncs ==> SiteName(s.peer)
    ensures Traced(OfferAll(h, syncs), first)
    ensures h.Keys <= OfferAll(h, syncs).Keys && forall v :: v in h ==> OfferAll(h, syncs)[v] == h[v]
    decreases |syncs|
  {
    hide Traced, SiteName, Offer;
    if syncs != [] {
      OfferTraced(h, syncs[0], first);
      AllTraced(Offer(h, syncs[0]), syncs[1..], first);
    }
  }

  /** The site synchronises with the peer at some time after it has come to hold the article. */
  predicate Synced(h: Holders, syncs: seq<Sync>, site: string, peer: string)
    decreases |syncs|
  {
    syncs != []
    && ((site in h && syncs[0].site == site && syncs[0].peer == peer) || Synced(Offer(h, syncs[0]), syncs[1..], site, peer))
  }

  lemma {:induction false} SyncedHolds(h: Holders, syncs: seq<Sync>, site: string, peer: string, first: Message)
    requires Traced(h, first) && (forall s :: s in syncs ==> SiteName(s.peer)) && Synced(h, syncs, site, peer)
    ensures peer in OfferAll(h, syncs) || peer in PathNames(first.headers)
    decreases |syncs|
  {
    hide Traced, SiteName, Offer, PathNames;
    var next := Offer(h, syncs[0]);
    OfferTraced(h, syncs[0], first);
    if site in h && syncs[0].site == site && syncs[0].peer == peer {
      AllTraced(next, syncs[1..], first);
    } else {
      SyncedHolds(next, syncs[1..], site, peer, first);
    }
  }

  /** Consecutive sites of the route are peers. */
  predicate Route(peers: set<(string, string)>, route: seq<string>) {
    route != [] && forall i :: 0 <= i < |route| - 1 ==> (route[i], route[i + 1]) in peers
  }

  /** If every site that comes to hold the article synchronises with each of its peers some time
      afterwards, in whatever order and with whatever overlap, then every site that can be reached
      by peers comes to hold it, along any route on which the article named nobody at first. */
  lemma {:induction false} Reached(peers: set<(string, string)>, first: Message, syncs: seq<Sync>, route: seq<string>)
    requires Route(peers, route) && Floodable(first) && SiteName(route[0])
    requires forall s :: s in syncs ==> SiteName(s.peer)
    requires forall v, w :: (v, w) in peers && v in OfferAll(map[route[0] := first], syncs) ==>
                              Synced(map[route[0] := first], syncs, v, w)
    requires forall n :: n in route[1..] ==> n !in PathNames(first.headers)
    ensures route[|route| - 1] in OfferAll(map[route[0] := first], syncs)
    decreases |route|
  {
    hide SiteName, Floodable, PathNames, OfferAll, Synced;
    var h := map[route[0] := first];
    var last := |route| - 1;
    assert Traced(h, first);
    hide Traced;
    if last == 0 {
      AllTraced(h, syncs, first);
    } else {
      assert route[..last][1..] <= route[1..] && route[..last][0] == route[0];
      Reached(peers, first, syncs, route[..last]);
      assert (route[last - 1], route[last]) in peers;
      SyncedHolds(h, syncs, route[last - 1], route[last], first);
      assert route[1..][last - 1] == route[last];
    }
  }

  /** And only sites that are synchronised with do. */
  lemma {:induction false} OnlyPeers(h: Holders, syncs: seq<Sync>, w: string)
    requires w !in h && w in OfferAll(h, syncs)
    ensures exists s :: s in syncs && s.peer == w
    decreases |syncs|
  {
    var next := Offer(h, syncs[0]);
    if w in next {
      assert syncs[0] in syncs;
    } else {
      OnlyPeers(next, syncs[1..], w);
      var s :| s in syncs[1..] && s.peer == w;
      assert s in syncs;
    }
  }
}
