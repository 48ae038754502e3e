/** The FreeBSD relay's UDP clients (FreeBSD/dns_tunneling.h): a table of 64 queries
    that wait for an answer from the host. */
module DnsUdpMap {
  import opened Sockets
  import opened DnsIdentifiers
  import opened DnsUdpBooks

  class UdpMap {
    const udpMap: array<UdpEntry>
    const channel: HostChannel
    var nextUdpId: nat
    ghost var owner: seq<nat>
    ghost var asked: seq<Query>
    ghost var answered: seq<Answer>
    ghost var fates: map<nat, Fate>

    ghost function State(): Books
      reads this, udpMap
    {
      Books(udpMap[..], owner, asked, answered, fates)
    }

    /** The table alone. */
    ghost predicate Kept()
      reads this, udpMap
    {
      udpMap.Length == MAX_UDP && Right(State()) && nextUdpId == |asked| % IDS
    }

    /** The table and what the host was told. */
    ghost predicate Valid()
      reads this, udpMap, channel
    {
      Kept() && Told(channel.delivered, asked) && EvictedUntold(channel.delivered, State())
    }

    /** The table, the channel and what the host will take. */
    ghost function Line(): Relay
      reads this, udpMap, channel
    {
      Relay(State(), channel.delivered, channel.takes)
    }

    constructor (channel: HostChannel)
      requires channel.delivered == []
      ensures Valid() && fresh(udpMap) && this.channel == channel
      ensures asked == [] && answered == [] && fates == map[] && Vacant(udpMap[..]) == 0
    {
      this.channel := channel;
      udpMap := new UdpEntry[MAX_UDP](_ => UdpEntry(false, 0, Address(0, 0), 0));
      nextUdpId := 0;
      owner, asked, answered, fates := seq(MAX_UDP, _ => 0), [], [], map[];
    }

    /** dns_udp_alloc: the first free entry, or none when the table is full. */
    method UdpAlloc(query: Query, now: nat) returns (slot: int)
      requires Kept()
      modifies this`nextUdpId, this`owner, this`asked, udpMap
      ensures Kept()
      ensures State() == if slot == -1 then old(State()) else Entered(old(State()), query, now)
      ensures slot == if Vacant(old(udpMap[..])) == MAX_UDP then -1 else Vacant(old(udpMap[..]))
      ensures slot != -1 ==>
                && asked == old(asked) + [query] && owner == old(owner)[slot := |old(asked)|]
                && udpMap[..] == old(udpMap[..])[slot := UdpEntry(true, (|old(asked)| + 1) % 0x1_0000_0000, query.client, now + 30000)]
    {
      for i := 0 to MAX_UDP
        invariant forall k :: 0 <= k < i ==> udpMap[..][k].used
      {
        if !udpMap[i].used {
          EnteredIsRight(State(), query, now);
          Enter(i, query, now);
          return i;
        }
      }
      return -1;
    }

    method Enter(i: nat, query: Query, now: nat)
      requires i < udpMap.Length == |owner| && nextUdpId == |asked| % IDS
      modifies this`nextUdpId, this`owner, this`asked, udpMap
      ensures State() == EnteredAt(old(State()), i, query, now) && nextUdpId == |asked| % IDS
    {
      ghost var m := udpMap[..];
      NextId(|asked|);
      nextUdpId := (nextUdpId + 1) % IDS;
      udpMap[i] := UdpEntry(true, nextUdpId, query.client, now + UDP_TTL);
      owner := owner[i := |asked|];
      asked := asked + [query];
      assert udpMap[..] == m[i := UdpEntry(true, IdOf(|old(asked)|), query.client, now + UDP_TTL)];
    }

    /** dns_udp_lookup. */
    method UdpLookup(id: nat) returns (slot: int)
      requires udpMap.Length == MAX_UDP
      ensures slot == if Find(udpMap[..], id) == MAX_UDP then -1 else Find(udpMap[..], id)
    {
      for i := 0 to MAX_UDP
        invariant forall k :: 0 <= k < i ==> !Matches(udpMap[..][k], id)
      {
        if udpMap[i].used && udpMap[i].id == id {
          return i;
        }
      }
      return -1;
    }

    /** dns_udp_free: releases the first entry with this identifier. */
    method UdpFree(id: nat, ghost fate: Fate)
      requires udpMap.Length == MAX_UDP && |owner| == MAX_UDP
      modifies this`fates, udpMap
      ensures State() == Freed(old(State()), id, fate)
    {
      ghost var m := udpMap[..];
      var slot := UdpLookup(id);
      if slot >= 0 {
        udpMap[slot] := udpMap[slot].(used := false);
        fates := fates[owner[slot] := fate];
        assert udpMap[..] == m[slot := m[slot].(used := false)];
      }
    }

    /** dns_handle_udp_readable, over the datagrams that are waiting. A full table
        drops the query; so does a host that cannot be told. */
    method HandleUdpReadable(datagrams: seq<Query>, now: nat)
      requires Valid()
      modifies this, udpMap, channel
      ensures Valid() && Grows(old(State()), State())
      ensures Line() == Relayed(old(Line()), datagrams, now)
      ensures StopsAt(old(Line()), Line(), datagrams, Count(old(Line()), datagrams, now))
      ensures ToldInTurn(old(Line()), Line(), datagrams, Count(old(Line()), datagrams, now))
      ensures answered == old(answered) && MoreOf(IPPROTO_UDP, old(channel.delivered), channel.delivered)
    {
      hide Right, Told, EvictedUntold, Grows, OneRelayed, MoreOf, StopsAt, ToldInTurn, Count;
      ghost var r := Line();
      StartsRight(r, datagrams, now);
      for d := 0 to |datagrams|
        invariant Valid() && Grows(r.b, State()) && answered == old(answered)
        invariant MoreOf(IPPROTO_UDP, r.told, channel.delivered)
        invariant Relayed(Line(), datagrams[d..], now) == Relayed(r, datagrams, now)
      {
        ghost var s := Line();
        assert datagrams[d..][1..] == datagrams[d + 1..];
        var stop := HandleQuery(datagrams[d], now);
        GrowsOn(r.b, s.b, State());
        MoreOn(IPPROTO_UDP, r.told, s.told, channel.delivered);
        if stop {
          return;
        }
      }
    }

    /** One pass of that loop. */
    method HandleQuery(query: Query, now: nat) returns (stop: bool)
      requires Valid()
      modifies this, udpMap, channel
      ensures Valid() && Grows(old(State()), State())
      ensures Line() == OneRelayed(old(Line()), query, now)
      ensures stop == !(Placed(old(State()), query) && NextTaken(old(channel.takes)))
      ensures answered == old(answered) && MoreOf(IPPROTO_UDP, old(channel.delivered), channel.delivered)
    {
      OneKeepsRight(Line(), query, now);
      stop := RelayQuery(query, now);
    }

    method RelayQuery(query: Query, now: nat) returns (stop: bool)
      requires Kept()
      modifies this`nextUdpId, this`owner, this`asked, this`fates, udpMap, channel
      ensures Line() == OneRelayed(old(Line()), query, now)
      ensures stop == !(Placed(old(State()), query) && NextTaken(old(channel.takes)))
      ensures nextUdpId == |asked| % IDS && udpMap.Length == MAX_UDP
    {
      if query.payload == [] {
        return true;
      }
      var slot := UdpAlloc(query, now);
      if slot == -1 {
        return true;
      }
      var ok := channel.Send(IPPROTO_UDP, udpMap[slot].id, query.payload);
      if !ok {
        UdpFree(udpMap[slot].id, Evicted);
      }
      stop := !ok;
    }

    /** The timeout branch of the loop. */
    method ExpireUdp(now: nat)
      requires Valid()
      modifies this`fates, udpMap
      ensures Valid() && State() == Swept(old(State()), now, MAX_UDP)
      ensures forall i :: 0 <= i < MAX_UDP ==>
                udpMap[i] == old(if udpMap[i].used && udpMap[i].deadline != 0 && udpMap[i].deadline < now
                                 then udpMap[i].(used := false) else udpMap[i])
    {
      ghost var b := State();
      for i := 0 to MAX_UDP
        invariant State() == Swept(b, now, i)
      {
        ExpireOne(i, now);
      }
      SweptIsRight(b, now, MAX_UDP);
      SweptEntries(b, now, MAX_UDP);
      SweptOnlyExpires(b, now, MAX_UDP);
    }

    method ExpireOne(i: nat, now: nat)
      requires i < udpMap.Length == |owner|
      modifies this`fates, udpMap
      ensures State() == if Due(old(State()).m[i], now) then FreedAt(old(State()), i, Expired) else old(State())
    {
      ghost var m := udpMap[..];
      if udpMap[i].used && udpMap[i].deadline != 0 && udpMap[i].deadline < now {
        udpMap[i] := udpMap[i].(used := false);
        fates := fates[owner[i] := Expired];
        assert udpMap[..] == m[i := m[i].(used := false)];
      }
    }

    /** The UDP half of dns_route_response. */
    method AnswerUdp(id: nat, dns: seq<byte>)
      requires Valid()
      modifies this`fates, this`answered, udpMap
      ensures Valid() && State() == Replied(old(State()), id, dns) && Responded(old(State()), State(), id, dns)
    {
      hide Right, Told, EvictedUntold, Responded;
      ghost var b := State();
      Sizes(b);
      RepliedIsRight(b, id, dns);
      RepliedResponds(b, id, dns);
      RepliedUntold(channel.delivered, b, id, dns);
      var slot := UdpLookup(id);
      if slot == -1 {
        return;
      }
      answered := answered + [Answer(owner[slot], udpMap[slot].client, id, dns)];
      UdpFree(id, Answered);
    }
  }
}
