/** The FreeBSD relay's TCP clients (FreeBSD/dns_tunneling.h): a table of 32
    connections, each with what its reader holds, and what is written to them. */
module DnsTcpConns {
  import opened Sockets
  import opened Descriptors
  import opened DnsIdentifiers
  import opened DnsFraming
  import opened DnsTcpReassembler
  import opened DnsTcpBooks

  class TcpConns {
    const kernel: Kernel
    const channel: HostChannel
    const slots: array<TcpSlot>
    var nextTcpId: nat
    ghost const kept: set<int>              // descriptors that are not connections
    ghost var owner: seq<nat>
    ghost var traffic: seq<Traffic>
    ghost var writes: seq<Write>

    ghost function State(): Books
      reads this, slots
    {
      Books(slots[..], owner, traffic, writes)
    }

    ghost predicate Valid()
      reads this, slots
    {
      slots.Length == MAX_TCP && Right(State()) && nextTcpId == |traffic| % IDS
    }

    /** The open descriptors are those kept and those of the live connections. */
    ghost predicate Open()
      reads slots, kernel
    {
      kernel.Valid() && Partition(kernel.open, kept, ConnFds(slots[..]))
    }

    ghost predicate AllTold()
      reads this`traffic, channel
    {
      Told(channel.delivered, traffic)
    }

    constructor (kernel: Kernel, channel: HostChannel, ghost kept: set<int>)
      requires kernel.Valid() && kernel.open == kept && channel.delivered == []
      ensures Valid() && Open() && AllTold() && fresh(slots)
      ensures this.kernel == kernel && this.channel == channel && this.kept == kept
      ensures traffic == [] && writes == [] && ConnFds(slots[..]) == {}
    {
      this.kernel, this.channel, this.kept := kernel, channel, kept;
      slots := new TcpSlot[MAX_TCP](_ => TcpSlot(false, 0, 0, []));
      nextTcpId := 0;
      owner, traffic, writes := seq(MAX_TCP, _ => 0), [], [];
    }

    /** dns_tcp_lookup. */
    method TcpLookup(id: nat) returns (slot: int)
      requires slots.Length == MAX_TCP
      ensures slot == if Find(slots[..], id) == MAX_TCP then -1 else Find(slots[..], id)
    {
      for i := 0 to MAX_TCP
        invariant forall k :: 0 <= k < i ==> !Matches(slots[..][k], id)
      {
        if slots[i].used && slots[i].id == id {
          return i;
        }
      }
      return -1;
    }

    /** dns_tcp_close. A slot already closed in this pass has descriptor -1. */
    method TcpClose(k: nat)
      requires k < MAX_TCP && Valid() && Open() && (slots[k].used || slots[k].fd == -1)
      modifies slots, kernel
      ensures Valid() && Open() && State() == ShutAt(old(State()), k)
      ensures slots[..] == old(slots[..])[k := TcpSlot(false, -1, old(slots[k].id), [])]
      ensures kernel.open == old(kernel.open) - (if old(slots[k].used) then {old(slots[k].fd)} else {})
      ensures kernel.handedOut == old(kernel.handedOut)
    {
      hide Right, ConnFds, Partition;
      SlotFacts(State(), k);
      ghost var b := State();
      ShutIsRight(b, k);
      ShutFds(b, k, kernel.open, kept);
      if slots[k].fd >= 0 {
        kernel.Close(slots[k].fd);
      }
      slots[k] := TcpSlot(false, -1, slots[k].id, []);
      assert slots[..] == b.m[k := Shut(b.m[k])];
    }

    /** dns_tcp_alloc: the first free slot, or none when all are used. */
    method TcpAlloc(fd: int) returns (slot: int)
      requires slots.Length == MAX_TCP == |owner| && nextTcpId == |traffic| % IDS
      modifies this`nextTcpId, this`owner, this`traffic, slots
      ensures nextTcpId == |traffic| % IDS && State() == Accepted(old(State()), fd)
      ensures slot == if Vacant(old(slots[..])) == MAX_TCP then -1 else Vacant(old(slots[..]))
      ensures slot != -1 ==>
                && traffic == old(traffic) + [Traffic([], [], [])] && owner == old(owner)[slot := |old(traffic)|]
                && slots[..] == old(slots[..])[slot := TcpSlot(true, fd, (|old(traffic)| + 1) % 0x1_0000_0000, [])]
    {
      for i := 0 to MAX_TCP
        invariant forall k :: 0 <= k < i ==> slots[..][k].used
      {
        if !slots[i].used {
          Take(i, fd);
          return i;
        }
      }
      return -1;
    }

    method Take(i: nat, fd: int)
      requires i < slots.Length == |owner| && nextTcpId == |traffic| % IDS
      modifies this`nextTcpId, this`owner, this`traffic, slots
      ensures nextTcpId == |traffic| % IDS && State() == TakenAt(old(State()), i, fd)
    {
      ghost var m := slots[..];
      NextId(|traffic|);
      nextTcpId := (nextTcpId + 1) % IDS;
      slots[i] := TcpSlot(true, fd, nextTcpId, []);
      owner := owner[i := |traffic|];
      traffic := traffic + [FRESH];
      assert slots[..] == m[i := TcpSlot(true, fd, IdOf(|old(traffic)|), [])];
    }

    /** dns_handle_tcp_accept, where accept will hand out these descriptors: a connection
        the table has no room for is closed at once. */
    method HandleTcpAccept(fds: seq<int>)
      requires Valid() && Open() && AllTold()
      modifies this`nextTcpId, this`owner, this`traffic, slots, kernel
      ensures Valid() && Open() && AllTold() && Grows(old(State()), State())
      ensures State() == Admitted(old(State()), kept, fds)
      ensures kernel.handedOut == old(kernel.handedOut) + HandedOut(old(State()), kept, fds)
    {
      hide Right, ConnFds, Partition, Told, Grows, Accepted;
      ghost var b := State();
      SlotFacts(b, 0);
      ShutGrows(b, 0);
      for a := 0 to |fds|
        invariant Valid() && Open() && AllTold() && Grows(b, State())
        invariant Admitted(State(), kept, fds[a..]) == Admitted(b, kept, fds)
        invariant kernel.handedOut + HandedOut(State(), kept, fds[a..]) == old(kernel.handedOut) + HandedOut(b, kept, fds)
      {
        ghost var c := State();
        assert fds[a..][1..] == fds[a + 1..];
        var fd := AcceptOne(fds[a]);
        if fd < 0 {
          break;
        }
        AcceptedGrows(c, fd);
        GrowsOn(b, c, State());
      }
    }

    /** One pass of that loop. */
    method AcceptOne(next: int) returns (fd: int)
      requires Valid() && Open() && AllTold()
      modifies this`nextTcpId, this`owner, this`traffic, slots, kernel
      ensures Valid() && Open() && AllTold()
      ensures fd == if Admissible(old(State()), kept, next) then next else -1
      ensures State() == if fd >= 0 then Accepted(old(State()), fd) else old(State())
      ensures kernel.handedOut == old(kernel.handedOut) + if fd >= 0 then multiset{fd} else multiset{}
    {
      hide Right, ConnFds, Told, Grows;
      SlotFacts(State(), 0);
      ghost var b, all := State(), kernel.open;
      fd := kernel.Accept(next);
      if fd >= 0 {
        AcceptedIsRight(b, fd);
        AcceptedFds(b, fd, all, kept);
        Admit(fd);
        assert kernel.open == if Vacant(b.m) < MAX_TCP then all + {fd} else all;
        AcceptedGrows(b, fd);
        ToldOnMore(channel.delivered, b, State());
      }
    }

    /** The descriptor gets a slot, or is closed again. */
    method Admit(fd: int)
      requires slots.Length == MAX_TCP == |owner| && nextTcpId == |traffic| % IDS
      requires kernel.Valid() && fd in kernel.open
      modifies this`nextTcpId, this`owner, this`traffic, slots, kernel
      ensures nextTcpId == |traffic| % IDS && kernel.Valid()
      ensures State() == Accepted(old(State()), fd)
      ensures kernel.open == old(kernel.open) - if Vacant(old(slots[..])) < MAX_TCP then {} else {fd}
      ensures kernel.handedOut == old(kernel.handedOut)
    {
      var slot := TcpAlloc(fd);
      if slot == -1 {
        kernel.Close(fd);
      }
    }

    /** dns_handle_tcp_readable: the slot's reader takes what there is. On a descriptor
        closed earlier in the pass recv fails. */
    method HandleTcpReadable(k: nat, script: seq<Event>)
      requires Valid() && Open() && AllTold() && k < MAX_TCP && (slots[k].used || slots[k].fd == -1)
      modifies this`traffic, slots, kernel, channel
      ensures Valid() && Open() && AllTold() && Grows(old(State()), State())
      ensures OnlyCloses(old(slots[..]), slots[..])
      ensures writes == old(writes) && MoreOf(IPPROTO_TCP, old(channel.delivered), channel.delivered)
      ensures if old(slots[k].used) then
                Served(old(State()), State(), k, script, old(channel.delivered), channel.delivered, old(channel.takes), channel.takes)
              else State() == ShutAt(old(State()), k) && unchanged(channel)
    {
      hide Right, ConnFds, Partition, Told, Grows, OnlyCloses, ServedWith, Served;
      SlotFacts(State(), k);
      ghost var b, told := State(), channel.delivered;
      if slots[k].fd == -1 {
        ShutGrows(b, k);
        TcpClose(k);
        return;
      }
      ghost var data, requests := ReadSlot(k, script);
      ServedIsTold(b, State(), k, script, told, data, requests);
    }

    method ReadSlot(k: nat, script: seq<Event>) returns (ghost data: seq<byte>, ghost requests: seq<seq<byte>>)
      requires Valid() && Open() && k < MAX_TCP && slots[k].used
      modifies this`traffic, slots, kernel, channel
      ensures Valid() && Open()
      ensures channel.delivered == old(channel.delivered) + Labelled(old(slots[k].id), requests)
      ensures ServedWith(old(State()), State(), k, script, data, requests)
      ensures Served(old(State()), State(), k, script, old(channel.delivered), channel.delivered, old(channel.takes), channel.takes)
    {
      hide Right, ConnFds, Partition, Served, Frames, Tail;
      SlotFacts(State(), k);
      ghost var b := State();
      var stays, held;
      stays, held, data, requests := RunReader(slots[k].id, slots[k].held, script, traffic[owner[k]].received);
      if stays {
        Keep(k, held, data, requests);
      } else {
        CloseAfter(k, data, requests);
      }
      ReadIsServed(b, State(), k, script, old(channel.delivered), old(channel.takes), data, requests);
    }

    /** The reader is set up with what its slot holds, and leaves what it then holds. */
    method RunReader(id: nat, held: seq<byte>, script: seq<Event>, ghost received: seq<byte>)
      returns (stays: bool, left: seq<byte>, ghost data: seq<byte>, ghost requests: seq<seq<byte>>)
      requires held == Tail(received)
      modifies channel
      ensures channel.delivered == old(channel.delivered) + Labelled(id, requests) && data <= Pending(script)
      ensures stays ==> left == Tail(received + data) && data == Pending(script) && EndOf(script).Open?
      ensures stays ==> Frames(received) + requests == Frames(received + data)
      ensures !stays ==>
                || (data == Pending(script) && !EndOf(script).Open? && Frames(received) + requests == Frames(received + data))
                || Frames(received) + requests < Frames(received + data)
      ensures var all := Frames(received + Pending(script));
              var n := |all| - |Frames(received)|;
              && Frames(received) <= all && data <= Pending(script)
              && requests == all[|Frames(received)|..|Frames(received)| + Taken(old(channel.takes), n)]
              && channel.takes == AfterSends(old(channel.takes), n)
              && (stays <==> Taken(old(channel.takes), n) == n && EndOf(script).Open?)
              && (Taken(old(channel.takes), n) == n ==> data == Pending(script))
    {
      hide Frames, Tail;
      var reader := new Connection.Holding(id, held, received);
      var socket := new Socket(script);
      var outcome := reader.HandleReadable(socket, channel);
      data, requests := reader.received[|received|..], reader.forwarded[|Frames(received)|..];
      assert received + data == reader.received && Frames(received) + requests == reader.forwarded;
      stays := outcome.Blocked?;
      left := if stays then reader.readBuf[..reader.readLen] else [];
    }

    /** The connection stays. */
    method Keep(k: nat, held: seq<byte>, ghost data: seq<byte>, ghost requests: seq<seq<byte>>)
      requires Valid() && k < MAX_TCP && slots[k].used
      requires held == Tail(traffic[owner[k]].received + data)
      requires traffic[owner[k]].told + requests == Frames(traffic[owner[k]].received + data)
      modifies this`traffic, slots
      ensures Valid() && State() == ReadAt(old(State()), k, data, requests) && ConnFds(slots[..]) == old(ConnFds(slots[..]))
    {
      hide Right, ConnFds, Partition;
      SlotFacts(State(), k);
      ghost var b, n := State(), owner[k];
      ReadIsRight(b, k, data, requests);
      slots[k] := slots[k].(held := held);
      traffic := traffic[n := traffic[n].(received := traffic[n].received + data, told := traffic[n].told + requests)];
      assert slots[..] == b.m[k := b.m[k].(held := held)];
      FdsHeld(b.m, k, held);
    }

    /** It is closed. */
    method CloseAfter(k: nat, ghost data: seq<byte>, ghost requests: seq<seq<byte>>)
      requires Valid() && Open() && k < MAX_TCP && slots[k].used
      requires traffic[owner[k]].told + requests <= Frames(traffic[owner[k]].received + data)
      modifies this`traffic, slots, kernel
      ensures Valid() && Open() && State() == ShutAt(ReadAt(old(State()), k, data, requests), k)
    {
      hide Right, ConnFds, Partition;
      SlotFacts(State(), k);
      ghost var b, n := State(), owner[k];
      LastReadIsRight(b, k, data, requests);
      TcpClose(k);
      traffic := traffic[n := traffic[n].(received := traffic[n].received + data, told := traffic[n].told + requests)];
      assert ShutAt(ReadAt(b, k, data, requests), k).m == slots[..];
    }

    /** At the end all connections are closed. */
    method CloseConnections()
      requires Valid() && Open()
      modifies slots, kernel
      ensures Valid() && Open() && kernel.open == kept
      ensures forall i :: 0 <= i < MAX_TCP ==> !slots[i].used
      ensures kernel.handedOut == old(kernel.handedOut) && Grows(old(State()), State())
    {
      hide Right, Grows, Partition, ConnFds;
      ghost var b := State();
      SlotFacts(b, 0);
      ShutGrows(b, 0);
      for i := 0 to MAX_TCP
        invariant Valid() && Open() && kernel.handedOut == old(kernel.handedOut) && Grows(b, State())
        invariant forall k :: 0 <= k < i ==> !slots[k].used
      {
        if slots[i].used {
          ghost var c := State();
          ShutGrows(c, i);
          TcpClose(i);
          GrowsOn(b, c, State());
        }
      }
      OnlyKept();
    }

    lemma OnlyKept()
      requires Valid() && Open() && forall i :: 0 <= i < MAX_TCP ==> !slots[i].used
      ensures kernel.open == kept
    {
      assert ConnFds(slots[..]) == {};
    }

    /** The 2-byte length and the response, in one buffer. */
    method FrameResponse(dns: seq<byte>) returns (framed: array<byte>)
      requires |dns| <= 65535
      ensures fresh(framed) && framed.Length == 2 + 65535 && framed[..2 + |dns|] == Framed(dns)
    {
      framed := new byte[2 + 65535](_ => 0);
      var low, high := |dns| % 256, |dns| / 256;
      framed[0], framed[1] := high, low;
      for i := 0 to |dns|
        invariant framed[0] == high && framed[1] == low
        invariant forall k :: 0 <= k < i ==> framed[2 + k] == dns[k]
      {
        framed[2 + i] := dns[i];
      }
      assert framed[..2] == Be16(|dns|) && framed[2..2 + |dns|] == dns;
      assert framed[..2 + |dns|] == framed[..2] + framed[2..2 + |dns|];
    }

    /** dns_send_all: everything, in pieces, or only what goes out before a send fails. */
    method SendAll(buf: array<byte>, len: nat, sends: seq<int>) returns (ok: bool, ghost sent: seq<byte>)
      requires len <= buf.Length
      ensures ok <==> Sent(sends, len) == len
      ensures sent == buf[..Sent(sends, len)]
    {
      var done, k := 0, 0;
      while done < len
        invariant done <= len && k <= |sends|
        invariant done + Sent(sends[k..], len - done) == Sent(sends, len)
        decreases |sends| - k
      {
        if k == |sends| || sends[k] <= 0 {
          return false, buf[..done];
        }
        done := done + AtMost(sends[k], len - done);
        k := k + 1;
      }
      return true, buf[..len];
    }

    /** The TCP half of dns_route_response; `sends` is what the sends to the client will take. */
    method AnswerTcp(id: nat, dns: seq<byte>, sends: seq<int>)
      requires Valid() && Open() && AllTold()
      modifies this`traffic, this`writes, slots, kernel
      ensures Valid() && Open() && AllTold() && Grows(old(State()), State())
      ensures OnlyCloses(old(slots[..]), slots[..])
      ensures State() == Routed(old(State()), id, dns, sends) && Delivered(old(State()), State(), id, dns, sends)
    {
      hide Right, ConnFds, Partition, Told, Grows, OnlyCloses, RoutedAt, Delivered;
      SlotFacts(State(), 0);
      ghost var b := State();
      RoutedDelivers(b, id, dns, sends);
      ShutGrows(b, 0);
      var slot := TcpLookup(id);
      if slot != -1 {
        SlotFacts(b, slot);
        Respond(slot, dns, sends);
        RoutedGrows(b, slot, dns, sends);
        ToldOnMore(channel.delivered, b, State());
      }
    }

    /** The response to the connection that was found. */
    method Respond(slot: nat, dns: seq<byte>, sends: seq<int>)
      requires Valid() && Open() && slot < MAX_TCP && slots[slot].used && owner[slot] < |traffic|
      modifies this`traffic, this`writes, slots, kernel
      ensures Valid() && Open() && State() == RoutedAt(old(State()), slot, dns, sends)
    {
      hide Right, ConnFds, Partition;
      if |dns| > 65535 {
        Fail(slot, dns, []);
      } else {
        var framed := FrameResponse(dns);
        var ok, sent := SendAll(framed, 2 + |dns|, sends);
        assert sent == Framed(dns)[..Sent(sends, 2 + |dns|)];
        if ok {
          Record(slot, dns, sent);
        } else {
          Fail(slot, dns, sent);
        }
      }
    }

    /** The connection is closed after a part, or nothing, of the response. */
    method Fail(slot: nat, dns: seq<byte>, ghost part: seq<byte>)
      requires Valid() && Open() && slot < MAX_TCP && slots[slot].used && owner[slot] < |traffic| && PartOf(dns, part)
      modifies this`traffic, slots, kernel
      ensures Valid() && Open() && State() == BrokenAt(old(State()), slot, part)
    {
      hide Right, ConnFds, Partition;
      SlotFacts(State(), slot);
      ghost var b, n := State(), owner[slot];
      BrokenIsRight(b, slot, dns, part);
      TcpClose(slot);
      traffic := traffic[n := traffic[n].(written := traffic[n].written + part)];
      assert State() == BrokenAt(b, slot, part);
    }

    /** The response has gone out in full. */
    ghost method Record(slot: nat, dns: seq<byte>, sent: seq<byte>)
      requires Valid() && slot < MAX_TCP && slots[slot].used && owner[slot] < |traffic|
      requires |dns| <= 65535 && sent == Framed(dns)
      modifies this`traffic, this`writes
      ensures Valid() && State() == WrittenAt(old(State()), slot, dns)
    {
      hide Right, ConnFds, Partition;
      SlotFacts(State(), slot);
      var b, n := State(), owner[slot];
      WrittenIsRight(b, slot, dns);
      traffic := traffic[n := traffic[n].(written := traffic[n].written + sent)];
      writes := writes + [Write(n, slots[slot].id, dns)];
    }
  }
}
