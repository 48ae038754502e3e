/** How the Linux relay tracks UDP requests (HandleUdpDnsRequest and
    HandleUdpDnsResponse in src/linux/init/DnsServer.cpp): a map from a 32-bit
    request identifier to the client's address, without a bound and without expiry. */
module DnsServerRequests {
  import opened Sockets
  import opened Wrappers
  import opened DnsIdentifiers
  import U = DnsUdpBooks

  /** Identifiers come from a counter that starts at 0 and wraps around. */
  function RequestId(number: nat): nat {
    number % IDS
  }

  /** Every entry belongs to an unanswered request and holds its client's address. */
  ghost predicate Tracks(requests: map<nat, Address>, owner: map<nat, nat>, asked: seq<Query>, answered: seq<U.Answer>) {
    && owner.Keys == requests.Keys
    && forall i :: i in owner ==>
         && owner[i] < |asked|
         && RequestId(owner[i]) == i
         && requests[i] == asked[owner[i]].client
         && forall a :: 0 <= a < |answered| ==> answered[a].query != owner[i]
  }

  /** Every answer went to the client whose request it was sent for, and no request has two. */
  ghost predicate Delivered(asked: seq<Query>, answered: seq<U.Answer>) {
    && (forall a :: 0 <= a < |answered| ==>
          && answered[a].query < |asked|
          && answered[a].to == asked[answered[a].query].client
          && answered[a].id == RequestId(answered[a].query))
    && forall a, b :: 0 <= a < b < |answered| ==> answered[a].query != answered[b].query
  }

  /** The requests that came while their identifier was still in the map are those
      newer than its entry; they have no entry of their own. */
  ghost predicate Shadows(shadowed: set<nat>, owner: map<nat, nat>, issued: nat) {
    && (forall q :: q in shadowed ==> IDS <= q < issued)
    && (forall i :: i in owner ==> owner[i] !in shadowed)
    && forall i, q: nat :: i in owner && owner[i] < q < issued && RequestId(q) == i ==> q in shadowed
  }

  /** A request that could be tunneled has an entry, its own unless there was one; of
      one that could not, none is left. */
  ghost predicate Requested(ok: bool, id: nat, query: Query, before: map<nat, Address>, after: map<nat, Address>,
                            told: seq<Tunneled>, told': seq<Tunneled>) {
    if ok then
      && told' == told + [Tunneled(17, id, query.payload)]
      && after == if id in before then before else before[id := query.client]
    else
      told' == told && after == before - {id}
  }

  lemma DroppedAgain(requests: map<nat, Address>, id: nat, client: Address)
    ensures requests[id := client] - {id} == requests - {id}
  {
  }

  lemma RequestIdsFar(a: nat, b: nat)
    requires a < b && RequestId(a) == RequestId(b)
    ensures a + IDS <= b
  {
  }

  lemma TrackNew(requests: map<nat, Address>, owner: map<nat, nat>, asked: seq<Query>, answered: seq<U.Answer>,
                 shadowed: set<nat>, query: Query)
    requires Tracks(requests, owner, asked, answered) && Delivered(asked, answered) && Shadows(shadowed, owner, |asked|)
    requires RequestId(|asked|) !in requests
    ensures var id := RequestId(|asked|);
            && Tracks(requests[id := query.client], owner[id := |asked|], asked + [query], answered)
            && Delivered(asked + [query], answered)
            && Shadows(shadowed, owner[id := |asked|], |asked| + 1)
  {
  }

  lemma TrackOld(requests: map<nat, Address>, owner: map<nat, nat>, asked: seq<Query>, answered: seq<U.Answer>,
                 shadowed: set<nat>, query: Query)
    requires Tracks(requests, owner, asked, answered) && Delivered(asked, answered) && Shadows(shadowed, owner, |asked|)
    requires RequestId(|asked|) in requests
    ensures Tracks(requests, owner, asked + [query], answered) && Delivered(asked + [query], answered)
    ensures Shadows(shadowed + {|asked|}, owner, |asked| + 1)
  {
    RequestIdsFar(owner[RequestId(|asked|)], |asked|);
  }

  lemma TrackAnswer(requests: map<nat, Address>, owner: map<nat, nat>, asked: seq<Query>, answered: seq<U.Answer>,
                    shadowed: set<nat>, id: nat, dns: seq<byte>)
    requires Tracks(requests, owner, asked, answered) && Delivered(asked, answered) && Shadows(shadowed, owner, |asked|)
    requires id in requests
    ensures id in owner
    ensures var more := answered + [U.Answer(owner[id], requests[id], id, dns)];
            && Tracks(requests - {id}, owner - {id}, asked, more)
            && Delivered(asked, more)
            && Shadows(shadowed, owner - {id}, |asked|)
  {
  }

  class DnsServer {
    const channel: HostChannel
    var currentUdpRequestId: nat
    var udpRequests: map<nat, Address>
    ghost var asked: seq<Query>
    ghost var owner: map<nat, nat>          // the request each entry was made for
    ghost var shadowed: set<nat>            // requests whose identifier was taken when they came
    ghost var answered: seq<U.Answer>

    ghost predicate Kept()
      reads this`udpRequests, this`owner, this`asked, this`answered, this`shadowed
    {
      && Tracks(udpRequests, owner, asked, answered)
      && Delivered(asked, answered)
      && Shadows(shadowed, owner, |asked|)
    }

    ghost predicate Valid()
      reads this
    {
      Kept() && currentUdpRequestId == RequestId(|asked|)
    }

    constructor (takes: seq<bool>)
      ensures Valid() && fresh(channel) && channel.takes == takes && asked == [] && answered == [] && udpRequests == map[]
    {
      channel := new HostChannel(takes);
      currentUdpRequestId, udpRequests := 0, map[];
      asked, owner, shadowed, answered := [], map[], {}, [];
    }

    /** HandleUdpDnsRequest. `found` is what recvfrom yields. An entry that exists is
        kept; a request that cannot be tunneled loses the entry of its identifier. */
    method HandleUdpDnsRequest(found: Option<Query>)
      requires Valid()
      modifies this, channel
      ensures Valid() && answered == old(answered)
      ensures found.None? || found.value.payload == [] ==>
                asked == old(asked) && udpRequests == old(udpRequests) && channel.delivered == old(channel.delivered)
      ensures found.Some? && found.value.payload != [] ==>
                && asked == old(asked) + [found.value]
                && shadowed == old(shadowed) + (if RequestId(|old(asked)|) in old(udpRequests) then {|old(asked)|} else {})
                && Requested(NextTaken(old(channel.takes)), RequestId(|old(asked)|), found.value,
                             old(udpRequests), udpRequests, old(channel.delivered), channel.delivered)
      ensures channel.takes == if found.Some? && found.value.payload != [] then Rest(old(channel.takes)) else old(channel.takes)
    {
      if found.Some? && found.value.payload != [] {
        OnRequest(found.value);
      }
    }

    method OnRequest(query: Query)
      requires Valid()
      modifies this, channel
      ensures Valid() && answered == old(answered)
      ensures asked == old(asked) + [query]
      ensures shadowed == old(shadowed) + (if RequestId(|old(asked)|) in old(udpRequests) then {|old(asked)|} else {})
      ensures Requested(NextTaken(old(channel.takes)), RequestId(|old(asked)|), query,
                        old(udpRequests), udpRequests, old(channel.delivered), channel.delivered)
      ensures channel.takes == Rest(old(channel.takes))
    {
      hide Tracks, Delivered, Shadows;
      var requestId := NextRequestId();
      Track(requestId, query);
      DroppedAgain(old(udpRequests), requestId, query.client);
      var _ := TunnelRequest(requestId, query);
    }

    /** Hands the request to the host; if that fails its identifier is forgotten. */
    method TunnelRequest(requestId: nat, query: Query) returns (ok: bool)
      requires Kept()
      modifies this`udpRequests, this`owner, channel
      ensures Kept() && ok == NextTaken(old(channel.takes)) && channel.takes == Rest(old(channel.takes))
      ensures channel.delivered == old(channel.delivered) + if ok then [Tunneled(IPPROTO_UDP, requestId, query.payload)] else []
      ensures udpRequests == if ok then old(udpRequests) else old(udpRequests) - {requestId}
    {
      ok := channel.Send(IPPROTO_UDP, requestId, query.payload);
      if !ok {
        udpRequests := udpRequests - {requestId};
        owner := owner - {requestId};
      }
    }

    /** m_currentUdpRequestId++. */
    method NextRequestId() returns (requestId: nat)
      requires currentUdpRequestId == RequestId(|asked|)
      modifies this`currentUdpRequestId
      ensures requestId == RequestId(|asked|) && currentUdpRequestId == RequestId(|asked| + 1)
    {
      requestId := currentUdpRequestId;
      currentUdpRequestId := (currentUdpRequestId + 1) % IDS;
    }

    /** The emplace. */
    method Track(requestId: nat, query: Query)
      requires Kept() && requestId == RequestId(|asked|)
      modifies this`udpRequests, this`asked, this`owner, this`shadowed
      ensures Kept()
      ensures asked == old(asked) + [query]
      ensures udpRequests == if requestId in old(udpRequests) then old(udpRequests) else old(udpRequests)[requestId := query.client]
      ensures shadowed == old(shadowed) + (if requestId in old(udpRequests) then {|old(asked)|} else {})
    {
      if requestId !in udpRequests {
        TrackNew(udpRequests, owner, asked, answered, shadowed, query);
        udpRequests := udpRequests[requestId := query.client];
        owner := owner[requestId := |asked|];
      } else {
        TrackOld(udpRequests, owner, asked, answered, shadowed, query);
        shadowed := shadowed + {|asked|};
      }
      asked := asked + [query];
    }

    /** HandleUdpDnsResponse: the request is forgotten whether or not it can be answered. */
    method HandleUdpDnsResponse(id: nat, dns: seq<byte>)
      requires Valid()
      modifies this`udpRequests, this`owner, this`answered
      ensures Valid()
      ensures id !in old(udpRequests) ==> udpRequests == old(udpRequests) && answered == old(answered)
      ensures id in old(udpRequests) ==>
                && udpRequests == old(udpRequests) - {id}
                && answered == old(answered) + [U.Answer(old(owner)[id], old(udpRequests)[id], id, dns)]
    {
      hide Tracks, Delivered, Shadows;
      if id !in udpRequests {
        return;
      }
      TrackAnswer(udpRequests, owner, asked, answered, shadowed, id, dns);
      answered := answered + [U.Answer(owner[id], udpRequests[id], id, dns)];
      udpRequests := udpRequests - {id};
      owner := owner - {id};
    }
  }

  /** An answer with the identifier of the newest request that has it goes to that
      request's own entry exactly if the identifier was free when the request came. */
  lemma NewestOwnsItsEntry(server: DnsServer, q: nat)
    requires server.Valid() && q < |server.asked| && RequestId(q) in server.udpRequests
    requires forall p :: q < p < |server.asked| ==> RequestId(p) != RequestId(q)
    ensures server.owner[RequestId(q)] == q <==> q !in server.shadowed
  {
    var p := server.owner[RequestId(q)];
    assert RequestId(p) == RequestId(q);
    assert p <= q;
  }

  /** For the first 2^32 requests that is every request; then no two requests share an identifier. */
  lemma NoneShadowed(server: DnsServer, q: nat)
    requires server.Valid() && |server.asked| <= IDS && q < |server.asked| && RequestId(q) in server.udpRequests
    ensures server.shadowed == {} && server.owner[RequestId(q)] == q
    ensures server.udpRequests[RequestId(q)] == server.asked[q].client
  {
    forall p | q < p < |server.asked| ensures RequestId(p) != RequestId(q) {
      if RequestId(p) == RequestId(q) {
        RequestIdsFar(q, p);
      }
    }
    NewestOwnsItsEntry(server, q);
  }

  // --------------------------------------------------------- when identifiers come back

  /** The map after requests none of which has been answered. */
  function Emplaced(asked: seq<Query>): map<nat, Address> {
    if asked == [] then map[]
    else
      var n := |asked| - 1;
      var before := Emplaced(asked[..n]);
      if RequestId(n) in before then before else before[RequestId(n) := asked[n].client]
  }

  /** The first request keeps its entry, whatever comes later. */
  lemma {:induction false} FirstStays(asked: seq<Query>)
    requires asked != []
    ensures RequestId(0) in Emplaced(asked) && Emplaced(asked)[RequestId(0)] == asked[0].client
  {
    var n := |asked| - 1;
    if n == 0 {
      assert asked[..0] == [];
    } else {
      FirstStays(asked[..n]);
    }
  }

  /** After 2^32 unanswered requests from different clients the newest has the identifier
      of the first, and its answer goes to the first one's client. */
  lemma NewestIsShadowed()
    ensures var asked := seq(IDS + 1, i requires 0 <= i => Query(Address(i, 53), [1]));
            && RequestId(IDS) == RequestId(0) && RequestId(0) in Emplaced(asked)
            && Emplaced(asked)[RequestId(IDS)] == asked[0].client != asked[IDS].client
  {
    var asked := seq(IDS + 1, i requires 0 <= i => Query(Address(i, 53), [1]));
    FirstStays(asked);
  }
}
