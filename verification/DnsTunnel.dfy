/** The FreeBSD relay's main loop (FreeBSD/dns_tunneling.h): what one poll does to the
    UDP and TCP clients, and which descriptors are open. */
module DnsTunnel {
  import opened Sockets
  import opened Descriptors
  import opened DnsIdentifiers
  import opened DnsChannel
  import opened DnsFraming
  import opened DnsTcpBooks
  import opened DnsTcpConns
  import opened DnsUdpMap
  import U = DnsUdpBooks

  /** What the host's end of the channel brings; with what the sends to a client that is
      answered will take. */
  datatype HostEvent = HangUp | FromHost(bytes: seq<byte>, sends: seq<int>)

  /** What one poll finds: readable and broken descriptors, datagrams waiting,
      descriptors accept will hand out, what the host sent, and what is on the stream of
      each slot. */
  datatype Poll =
    | Interrupted
    | Failed
    | TimedOut(now: nat)
    | Ready(readable: set<int>, broken: set<int>, datagrams: seq<Query>, attempts: seq<int>, host: HostEvent,
            streams: seq<seq<Event>>, now: nat)

  // ------------------------------------------------------------------ what is polled

  /** The slots the loop polls are live, or were closed by an earlier event of the pass. */
  ghost predicate Mapped(m: seq<TcpSlot>, connMap: seq<int>) {
    forall i :: 0 <= i < |connMap| && connMap[i] != -1 ==>
      0 <= connMap[i] < |m| && (m[connMap[i]].used || m[connMap[i]].fd == -1)
  }

  /** The first `n` slots' live connections follow the three descriptors of the tunnel's own. */
  ghost predicate Polled(m: seq<TcpSlot>, n: nat, fds: seq<int>, connMap: seq<int>)
    requires n <= |m|
  {
    && |fds| == |connMap| >= 3 && connMap[..3] == [-1, -1, -1]
    && (forall j :: 3 <= j < |fds| ==> 0 <= connMap[j] < n && m[connMap[j]].used && fds[j] == m[connMap[j]].fd)
    && (forall k :: 0 <= k < n && m[k].used ==> k in connMap[3..])
  }

  lemma PolledNext(m: seq<TcpSlot>, n: nat, fds: seq<int>, connMap: seq<int>)
    requires n < |m| && Polled(m, n, fds, connMap)
    ensures m[n].used ==> Polled(m, n + 1, fds + [m[n].fd], connMap + [n])
    ensures !m[n].used ==> Polled(m, n + 1, fds, connMap)
  {
    assert (connMap + [n])[3..] == connMap[3..] + [n];
    assert (connMap + [n])[..3] == connMap[..3];
  }

  lemma StillMapped(m: seq<TcpSlot>, n: seq<TcpSlot>, connMap: seq<int>)
    requires Mapped(m, connMap) && (OnlyCloses(m, n) || OnlyFills(m, n))
    ensures Mapped(n, connMap)
  {
  }

  /** Of the connections handled so far, those that hung up are closed. */
  ghost predicate HungUpClosed(m: seq<TcpSlot>, fds: seq<int>, connMap: seq<int>, broken: set<int>, i: nat) {
    forall j :: 3 <= j < i && j < |fds| && j < |connMap| && fds[j] in broken && 0 <= connMap[j] < |m| ==> !m[connMap[j]].used
  }

  lemma PolledFacts(m: seq<TcpSlot>, fds: seq<int>, connMap: seq<int>, broken: set<int>)
    requires Polled(m, |m|, fds, connMap)
    ensures |fds| == |connMap| >= 3 && HungUpClosed(m, fds, connMap, broken, 0)
    ensures forall j :: 0 <= j < |fds| ==> if j < 3 then connMap[j] == -1 else 0 <= connMap[j] < |m|
  {
    forall j | 0 <= j < 3 ensures connMap[j] == -1 {
      assert connMap[j] == connMap[..3][j];
    }
  }

  lemma HungUpNext(m: seq<TcpSlot>, n: seq<TcpSlot>, fds: seq<int>, connMap: seq<int>, broken: set<int>, i: nat)
    requires i < |fds| == |connMap| && HungUpClosed(m, fds, connMap, broken, i)
    requires i >= 3 ==> OnlyCloses(m, n) && 0 <= connMap[i] < |n| && (fds[i] in broken ==> !n[connMap[i]].used)
    ensures HungUpClosed(n, fds, connMap, broken, i + 1)
  {
  }

  lemma AllHungUpClosed(m: seq<TcpSlot>, n: seq<TcpSlot>, fds: seq<int>, connMap: seq<int>, broken: set<int>)
    requires |m| == |n| && Polled(m, |m|, fds, connMap) && HungUpClosed(n, fds, connMap, broken, |fds|)
    ensures forall k :: 0 <= k < |m| && m[k].used && m[k].fd in broken ==> !n[k].used
  {
    forall k | 0 <= k < |m| && m[k].used && m[k].fd in broken ensures !n[k].used {
      var j :| 0 <= j < |connMap[3..]| && connMap[3..][j] == k;
      assert connMap[j + 3] == k;
    }
  }

  // ------------------------------------------------------------- what the host's message does

  /** A message from the host: the UDP client or the connection it names is answered. */
  ghost predicate Heard(b: U.Books, b': U.Books, c: Books, c': Books, bytes: seq<byte>, sends: seq<int>) {
    match DecodeMessage(bytes)
    case Refused => b' == b && c' == c
    case Message(protocol, id, dns, _) =>
      if protocol == 17 then U.Responded(b, b', id, dns) && c' == c
      else if protocol == 6 then b' == b && Delivered(c, c', id, dns, sends)
      else b' == b && c' == c
  }

  // ---------------------------------------------------------------------- one pass

  /** All that is known of the clients, what the host was told and will take, and the
      descriptors that are not clients'. */
  datatype Record = Record(udp: U.Books, tcp: Books, told: seq<Tunneled>, takes: seq<bool>, kept: set<int>)

  /** Nothing of it is taken back. */
  ghost predicate Extends(r: Record, s: Record) {
    U.Grows(r.udp, s.udp) && Grows(r.tcp, s.tcp) && r.told <= s.told
  }

  lemma ExtendsOn(r: Record, s: Record, t: Record)
    requires Extends(r, s) && Extends(s, t)
    ensures Extends(r, t)
  {
    U.GrowsOn(r.udp, s.udp, t.udp);
    GrowsOn(r.tcp, s.tcp, t.tcp);
  }

  lemma ExtendsSelf(r: Record)
    ensures Extends(r, r)
  {
  }

  ghost predicate AfterDatagrams(r: Record, s: Record, datagrams: seq<Query>, now: nat) {
    && U.Relay(s.udp, s.told, s.takes) == U.Relayed(U.Relay(r.udp, r.told, r.takes), datagrams, now)
    && s.tcp == r.tcp && s.kept == r.kept
  }

  ghost predicate AfterAttempts(r: Record, s: Record, fds: seq<int>) {
    s == r.(tcp := Admitted(r.tcp, r.kept, fds))
  }

  ghost predicate AfterHost(r: Record, s: Record, host: HostEvent, broken: bool) {
    if broken || host.HangUp? then s == r
    else Heard(r.udp, s.udp, r.tcp, s.tcp, host.bytes, host.sends) && s.told == r.told && s.takes == r.takes && s.kept == r.kept
  }

  /** A connection that is broken, or was closed earlier in the pass, is closed; any
      other is read. */
  ghost predicate AfterConnection(r: Record, s: Record, conn: int, broken: bool, streams: seq<seq<Event>>) {
    && s.udp == r.udp && s.kept == r.kept
    && if conn < 0 || conn >= |r.tcp.m| then s == r
       else if broken || !r.tcp.m[conn].used then
         s == r.(tcp := r.tcp.(m := r.tcp.m[conn := TcpSlot(false, -1, r.tcp.m[conn].id, [])]))
       else Served(r.tcp, s.tcp, conn, Stream(streams, conn), r.told, s.told, r.takes, s.takes)
  }

  function Stream(streams: seq<seq<Event>>, conn: nat): seq<Event> {
    if conn < |streams| then streams[conn] else []
  }

  /** What one event does, by its descriptor. */
  ghost predicate EventDone(r: Record, s: Record, fd: int, conn: int, own: seq<int>, poll: Poll)
    requires |own| == 3 && poll.Ready?
  {
    if fd !in poll.readable + poll.broken then s == r
    else if fd == own[0] then AfterDatagrams(r, s, poll.datagrams, poll.now)
    else if fd == own[1] then AfterAttempts(r, s, poll.attempts)
    else if fd == own[2] then AfterHost(r, s, poll.host, fd in poll.broken)
    else AfterConnection(r, s, conn, fd in poll.broken, poll.streams)
  }

  /** Events in order, with the record before each and after the last. */
  ghost predicate Passed(trace: seq<Record>, fds: seq<int>, connMap: seq<int>, own: seq<int>, poll: Poll)
    requires |own| == 3 && poll.Ready?
  {
    && |trace| == |fds| + 1 == |connMap| + 1
    && forall j :: 0 <= j < |fds| ==> EventDone(trace[j], trace[j + 1], fds[j], connMap[j], own, poll)
  }

  lemma NonePassed(r: Record, own: seq<int>, poll: Poll)
    requires |own| == 3 && poll.Ready?
    ensures Passed([r], [], [], own, poll)
  {
  }

  lemma PassedOn(trace: seq<Record>, s: Record, fds: seq<int>, connMap: seq<int>, i: nat, own: seq<int>, poll: Poll)
    requires |own| == 3 && poll.Ready? && i < |fds| == |connMap| && Passed(trace, fds[..i], connMap[..i], own, poll)
    requires EventDone(trace[i], s, fds[i], connMap[i], own, poll)
    ensures Passed(trace + [s], fds[..i + 1], connMap[..i + 1], own, poll)
  {
  }

  /** A whole pass: the tunnel's own three descriptors, then the connections that were
      live when it began. */
  ghost predicate WholePass(r: Record, s: Record, trace: seq<Record>, fds: seq<int>, connMap: seq<int>, own: seq<int>, poll: Poll)
    requires |own| == 3 && poll.Ready?
  {
    && Passed(trace, fds, connMap, own, poll) && trace[0] == r && trace[|fds|] == s
    && Polled(r.tcp.m, |r.tcp.m|, fds, connMap) && fds[..3] == own
    && forall j :: 3 <= j < |fds| ==> fds[j] !in own
  }

  // ---------------------------------------------------------------------- whole runs

  /** One turn of the loop. */
  ghost predicate PollDone(r: Record, s: Record, own: seq<int>, poll: Poll)
    requires |own| == 3
  {
    match poll
    case TimedOut(now) => |r.udp.m| == |r.udp.owner| == U.MAX_UDP && s == r.(udp := U.Swept(r.udp, now, U.MAX_UDP))
    case Ready(_, _, _, _, _, _, _) => exists trace, fds, connMap :: WholePass(r, s, trace, fds, connMap, own, poll)
    case _ => s == r
  }

  /** The channel is gone, or what it carries cannot be read. */
  ghost predicate Hangs(poll: Poll, channelFd: int) {
    poll.Ready? && (channelFd in poll.broken
                    || (channelFd in poll.readable && (poll.host.HangUp? || DecodeMessage(poll.host.bytes).Refused?)))
  }

  ghost predicate Ends(poll: Poll, channelFd: int) {
    poll.Failed? || Hangs(poll, channelFd)
  }

  /** What holds of a record of a tunnel that works. */
  ghost predicate Sound(r: Record) {
    && U.Right(r.udp) && U.Told(r.told, r.udp.asked) && U.EvictedUntold(r.told, r.udp)
    && Right(r.tcp) && Told(r.told, r.tcp.traffic)
  }

  /** The loop has handled the first polls, none of which ended it except perhaps the last. */
  ghost predicate Handled(trace: seq<Record>, own: seq<int>, polls: seq<Poll>)
    requires |own| == 3
  {
    && 1 <= |trace| <= |polls| + 1
    && (forall p :: 0 <= p < |trace| ==> Sound(trace[p]))
    && (forall p :: 0 <= p < |trace| - 1 ==> PollDone(trace[p], trace[p + 1], own, polls[p]))
    && forall p :: 0 <= p < |trace| - 2 ==> !Ends(polls[p], own[2])
  }

  lemma NoneHandled(r: Record, own: seq<int>, polls: seq<Poll>)
    requires |own| == 3 && Sound(r)
    ensures Handled([r], own, polls)
  {
  }

  lemma HandledOn(trace: seq<Record>, s: Record, own: seq<int>, polls: seq<Poll>)
    requires |own| == 3 && Handled(trace, own, polls) && |trace| <= |polls|
    requires |trace| > 1 ==> !Ends(polls[|trace| - 2], own[2])
    requires PollDone(trace[|trace| - 1], s, own, polls[|trace| - 1]) && Sound(s)
    ensures Handled(trace + [s], own, polls)
  {
    hide Sound, PollDone, Ends;
  }

  // ------------------------------------------------------- what one pass brings a client

  /** The host's message is read in this pass. */
  ghost predicate Brings(poll: Poll, channelFd: int, protocol: byte, id: nat, dns: seq<byte>) {
    && poll.Ready? && channelFd in poll.readable && channelFd !in poll.broken && poll.host.FromHost?
    && DecodeMessage(poll.host.bytes).Message?
    && var m := DecodeMessage(poll.host.bytes);
       m.protocol == protocol && m.id == id && m.dns == dns
  }

  /** The first three events of a pass are the tunnel's own; the others answer no query. */
  lemma OwnEvents(r: Record, s: Record, trace: seq<Record>, fds: seq<int>, connMap: seq<int>, own: seq<int>, poll: Poll)
    requires |own| == 3 && poll.Ready? && WholePass(r, s, trace, fds, connMap, own, poll)
    ensures |trace| == |fds| + 1 == |connMap| + 1 && |fds| >= 3 && trace[0] == r && trace[|fds|] == s
    ensures EventDone(trace[0], trace[1], own[0], -1, own, poll)
    ensures EventDone(trace[1], trace[2], own[1], -1, own, poll)
    ensures EventDone(trace[2], trace[3], own[2], -1, own, poll)
    ensures forall j :: 3 <= j < |fds| ==> fds[j] !in own && EventDone(trace[j], trace[j + 1], fds[j], connMap[j], own, poll)
  {
    hide EventDone;
    assert forall j :: 0 <= j < 3 ==> fds[j] == fds[..3][j] && connMap[j] == connMap[..3][j];
  }

  lemma {:induction false} RestKeepsUdp(trace: seq<Record>, fds: seq<int>, connMap: seq<int>, own: seq<int>, poll: Poll, n: nat)
    requires |own| == 3 && poll.Ready? && |trace| == |fds| + 1 == |connMap| + 1 && 3 <= n <= |fds|
    requires forall j :: 3 <= j < n ==> fds[j] !in own && EventDone(trace[j], trace[j + 1], fds[j], connMap[j], own, poll)
    ensures trace[n].udp == trace[3].udp
  {
    if n > 3 {
      RestKeepsUdp(trace, fds, connMap, own, poll, n - 1);
    }
  }

  /** A query that waits is answered by the host's response to it: by exactly one answer,
      with the response's bytes, to the address the query came from. */
  lemma PassAnswersQuery(r: Record, s: Record, trace: seq<Record>, fds: seq<int>, connMap: seq<int>, own: seq<int>, poll: Poll,
                         q: nat, dns: seq<byte>)
    requires |own| == 3 && own[0] != own[1] && own[0] != own[2] && own[1] != own[2]
    requires Sound(r) && Brings(poll, own[2], 17, IdOf(q), dns)
    requires WholePass(r, s, trace, fds, connMap, own, poll)
    requires q < |r.udp.asked| && q !in r.udp.fates && |s.udp.asked| <= IDS
    ensures s.udp.answered == r.udp.answered + [U.Answer(q, r.udp.asked[q].client, IdOf(q), dns)]
  {
    hide WholePass;
    OwnEvents(r, s, trace, fds, connMap, own, poll);
    RestKeepsUdp(trace, fds, connMap, own, poll, |fds|);
    hide Served, Delivered, Admitted, U.Right, U.Told, U.EvictedUntold, U.Grows, U.Relayed;
    var relay := U.Relay(r.udp, r.told, r.takes);
    U.StaysGrown(r.udp);
    U.RelayKeepsRight(relay, poll.datagrams, poll.now);
    assert trace[2].udp == trace[1].udp && U.Responded(trace[2].udp, s.udp, IdOf(q), dns);
    if own[0] in poll.readable + poll.broken {
      U.RelayLeavesWaiting(relay, poll.datagrams, poll.now, q);
      GrownAsked(r.udp, trace[1].udp, q);
    }
    U.WaitingIsAnswered(trace[2].udp, s.udp, q, dns);
  }

  lemma GrownAsked(b: U.Books, c: U.Books, q: nat)
    requires U.Grows(b, c) && q < |b.asked|
    ensures q < |c.asked| && c.asked[q] == b.asked[q]
  {
  }

  /** So it is in every run of the loop. */
  lemma RunAnswersQuery(trace: seq<Record>, own: seq<int>, polls: seq<Poll>, p: nat, q: nat, dns: seq<byte>)
    requires |own| == 3 && own[0] != own[1] && own[0] != own[2] && own[1] != own[2]
    requires Handled(trace, own, polls) && p + 1 < |trace| && Brings(polls[p], own[2], 17, IdOf(q), dns)
    requires q < |trace[p].udp.asked| && q !in trace[p].udp.fates && |trace[p + 1].udp.asked| <= IDS
    ensures trace[p + 1].udp.answered ==
            trace[p].udp.answered + [U.Answer(q, trace[p].udp.asked[q].client, IdOf(q), dns)]
  {
    hide Sound, WholePass;
    var pass, fds, connMap :| WholePass(trace[p], trace[p + 1], pass, fds, connMap, own, polls[p]);
    PassAnswersQuery(trace[p], trace[p + 1], pass, fds, connMap, own, polls[p], q, dns);
  }

  /** The events of connections write to nobody. */
  lemma {:induction false} RestKeepsWritten(trace: seq<Record>, fds: seq<int>, connMap: seq<int>, own: seq<int>, poll: Poll, n: nat)
    requires |own| == 3 && poll.Ready? && |trace| == |fds| + 1 == |connMap| + 1 && 3 <= n <= |fds|
    requires forall j :: 3 <= j < n ==> fds[j] !in own && EventDone(trace[j], trace[j + 1], fds[j], connMap[j], own, poll)
    ensures SameWritten(trace[3].tcp, trace[n].tcp)
  {
    if n > 3 {
      RestKeepsWritten(trace, fds, connMap, own, poll, n - 1);
      ConnectionKeepsWritten(trace[n - 1], trace[n], fds[n - 1], connMap[n - 1], own, poll);
      assert forall k :: 0 <= k < |trace[n].tcp.traffic| ==>
               trace[n].tcp.traffic[k].written == trace[n - 1].tcp.traffic[k].written == trace[3].tcp.traffic[k].written;
    }
  }

  ghost predicate SameWritten(b: Books, c: Books) {
    && c.writes == b.writes && |c.traffic| == |b.traffic|
    && forall n :: 0 <= n < |b.traffic| ==> c.traffic[n].written == b.traffic[n].written
  }

  lemma ConnectionKeepsWritten(r: Record, s: Record, fd: int, conn: int, own: seq<int>, poll: Poll)
    requires |own| == 3 && poll.Ready? && fd !in own && EventDone(r, s, fd, conn, own, poll)
    ensures SameWritten(r.tcp, s.tcp)
  {
    hide Frames, Tail, Taken, AfterSends;
  }

  /** Datagrams and new connections leave a live connection as it is. */
  lemma EarlyKeeps(r: Record, s: Record, t: Record, own: seq<int>, poll: Poll, i: nat)
    requires |own| == 3 && poll.Ready? && own[0] != own[1]
    requires EventDone(r, s, own[0], -1, own, poll) && EventDone(s, t, own[1], -1, own, poll)
    requires Right(r.tcp) && i < MAX_TCP && r.tcp.m[i].used
    ensures Right(t.tcp) && t.tcp.m[i] == r.tcp.m[i] && t.tcp.owner[i] == r.tcp.owner[i]
    ensures r.tcp.traffic <= t.tcp.traffic && t.tcp.writes == r.tcp.writes
  {
    hide Right, Admitted, U.Relayed;
    AdmittedKeeps(r.tcp, s.kept, poll.attempts, i);
  }

  lemma HostDelivers(r: Record, s: Record, own: seq<int>, poll: Poll, id: nat, dns: seq<byte>)
    requires |own| == 3 && own[0] != own[2] && own[1] != own[2] && Brings(poll, own[2], 6, id, dns)
    requires EventDone(r, s, own[2], -1, own, poll)
    ensures Delivered(r.tcp, s.tcp, id, dns, poll.host.sends) && |dns| <= 65528
  {
    hide Delivered;
    AnswerFits(poll.host.bytes);
  }

  /** The host's response to a live connection is written to it, framed, and to nobody else
      in this pass, if the sends take all of it. */
  lemma PassWritesResponse(r: Record, s: Record, trace: seq<Record>, fds: seq<int>, connMap: seq<int>, own: seq<int>, poll: Poll,
                           i: nat, dns: seq<byte>)
    requires |own| == 3 && own[0] != own[1] && own[0] != own[2] && own[1] != own[2] && poll.Ready?
    requires Sound(r) && WholePass(r, s, trace, fds, connMap, own, poll)
    requires i < MAX_TCP && r.tcp.m[i].used && |s.tcp.traffic| <= IDS
    requires Brings(poll, own[2], 6, IdOf(r.tcp.owner[i]), dns) && Sent(poll.host.sends, 2 + |dns|) == 2 + |dns|
    ensures var n := r.tcp.owner[i];
            && n < |r.tcp.traffic| <= |s.tcp.traffic|
            && s.tcp.traffic[n].written == r.tcp.traffic[n].written + [|dns| / 256, |dns| % 256] + dns
            && s.tcp.writes == r.tcp.writes + [Write(n, IdOf(n), dns)]
  {
    hide WholePass;
    OwnEvents(r, s, trace, fds, connMap, own, poll);
    RestKeepsWritten(trace, fds, connMap, own, poll, |fds|);
    SlotFacts(r.tcp, i);
    hide Right, EventDone, Brings, Delivered;
    var n := r.tcp.owner[i];
    EarlyKeeps(r, trace[1], trace[2], own, poll, i);
    HostDelivers(trace[2], trace[3], own, poll, IdOf(n), dns);
    DeliveredSize(trace[2].tcp, trace[3].tcp, i, dns, poll.host.sends);
    LiveIsDelivered(trace[2].tcp, trace[3].tcp, i, dns, poll.host.sends);
  }

  lemma RunWritesResponse(trace: seq<Record>, own: seq<int>, polls: seq<Poll>, p: nat, i: nat, dns: seq<byte>)
    requires |own| == 3 && own[0] != own[1] && own[0] != own[2] && own[1] != own[2]
    requires Handled(trace, own, polls) && p + 1 < |trace|
    requires i < MAX_TCP && |trace[p].tcp.m| == |trace[p].tcp.owner| == MAX_TCP && trace[p].tcp.m[i].used
    requires Brings(polls[p], own[2], 6, IdOf(trace[p].tcp.owner[i]), dns) && |trace[p + 1].tcp.traffic| <= IDS
    requires Sent(polls[p].host.sends, 2 + |dns|) == 2 + |dns|
    ensures var n := trace[p].tcp.owner[i];
            && n < |trace[p].tcp.traffic| <= |trace[p + 1].tcp.traffic|
            && trace[p + 1].tcp.traffic[n].written == trace[p].tcp.traffic[n].written + [|dns| / 256, |dns| % 256] + dns
            && trace[p + 1].tcp.writes == trace[p].tcp.writes + [Write(n, IdOf(n), dns)]
  {
    hide Sound, WholePass;
    var pass, fds, connMap :| WholePass(trace[p], trace[p + 1], pass, fds, connMap, own, polls[p]);
    PassWritesResponse(trace[p], trace[p + 1], pass, fds, connMap, own, polls[p], i, dns);
  }

  // ------------------------------------------------------------------------ the tunnel

  class Tunnel {
    const kernel: Kernel
    const channel: HostChannel
    const udp: UdpMap
    const tcp: TcpConns
    var udpFd: int
    var tcpFd: int
    var channelFd: int
    var stopping: bool
    ghost const others: set<int>            // descriptors of the rest of the process

    /** Who owns which object and which descriptor. */
    ghost predicate Wired()
      reads this
    {
      && udp.channel == channel && tcp.channel == channel && tcp.kernel == kernel
      && tcp.kept == others + {udpFd, tcpFd, channelFd} && others !! {udpFd, tcpFd, channelFd}
      && udpFd >= 0 && tcpFd >= 0 && channelFd >= 0
      && udpFd != tcpFd && udpFd != channelFd && tcpFd != channelFd
    }

    ghost predicate Valid()
      reads this, udp, udp.udpMap, tcp, tcp.slots, kernel, channel
    {
      Wired() && udp.Valid() && tcp.Valid() && tcp.Open() && tcp.AllTold()
    }

    /** The state in which polling starts: both listeners bound, tables empty. */
    constructor (kernel: Kernel, udpFd: int, tcpFd: int, channelFd: int, takes: seq<bool>)
      requires kernel.Valid()
      requires {udpFd, tcpFd, channelFd} <= kernel.open && udpFd >= 0 && tcpFd >= 0 && channelFd >= 0
      requires udpFd != tcpFd && udpFd != channelFd && tcpFd != channelFd
      ensures Valid() && this.kernel == kernel && !stopping
      ensures fresh(channel) && fresh(udp) && fresh(udp.udpMap) && fresh(tcp) && fresh(tcp.slots)
      ensures others == kernel.open - {udpFd, tcpFd, channelFd}
      ensures udp.asked == [] && udp.answered == [] && tcp.traffic == [] && tcp.writes == []
    {
      this.kernel := kernel;
      var hostChannel := new HostChannel(takes);
      channel := hostChannel;
      this.udpFd, this.tcpFd, this.channelFd := udpFd, tcpFd, channelFd;
      ghost var rest := kernel.open - {udpFd, tcpFd, channelFd};
      others := rest;
      assert kernel.open == rest + {udpFd, tcpFd, channelFd};
      udp := new UdpMap(hostChannel);
      tcp := new TcpConns(kernel, hostChannel, rest + {udpFd, tcpFd, channelFd});
      stopping := false;
    }

    /** dns_handle_channel_readable and dns_route_response. */
    method HandleChannelReadable(bytes: seq<byte>, sends: seq<int>)
      requires Valid()
      modifies this`stopping, udp`fates, udp`answered, udp.udpMap, tcp`traffic, tcp`writes, tcp.slots, kernel
      ensures Valid() && OnlyCloses(old(tcp.slots[..]), tcp.slots[..])
      ensures U.Grows(old(udp.State()), udp.State()) && Grows(old(tcp.State()), tcp.State())
      ensures Heard(old(udp.State()), udp.State(), old(tcp.State()), tcp.State(), bytes, sends)
      ensures stopping == (old(stopping) || DecodeMessage(bytes).Refused?)
    {
      hide Right, Grows, OnlyCloses, ConnFds, Partition, Routed, U.Right, U.Grows, U.Told, U.EvictedUntold, U.Replied, U.Responded, Delivered;
      SlotFacts(tcp.State(), 0);
      ShutGrows(tcp.State(), 0);
      U.StaysGrown(udp.State());
      match DecodeMessage(bytes)
      case Refused =>
        stopping := true;
      case Message(protocol, id, dns, _) =>
        if protocol == IPPROTO_UDP {
          U.RepliedGrows(udp.State(), id, dns);
          udp.AnswerUdp(id, dns);
        } else if protocol == IPPROTO_TCP {
          tcp.AnswerTcp(id, dns, sends);
        }
    }

    ghost function Now(): Record
      reads udp, udp.udpMap, tcp, tcp.slots, channel
    {
      Record(udp.State(), tcp.State(), channel.delivered, channel.takes, tcp.kept)
    }

    lemma RecordIsSound()
      requires Valid()
      ensures Sound(Now())
    {
    }

    /** What is polled, and the slots it belongs to. */
    method PollSet() returns (fds: seq<int>, connMap: seq<int>)
      requires Valid()
      ensures tcp.slots.Length == MAX_TCP
      ensures Polled(tcp.slots[..], MAX_TCP, fds, connMap) && Mapped(tcp.slots[..], connMap)
      ensures fds[..3] == [udpFd, tcpFd, channelFd]
      ensures forall j :: 3 <= j < |fds| ==> fds[j] !in {udpFd, tcpFd, channelFd}
    {
      hide Right, Told, U.Right, U.Told, U.EvictedUntold;
      ghost var m := tcp.slots[..];
      SlotFacts(tcp.State(), 0);
      fds := [udpFd, tcpFd, channelFd];
      connMap := [-1, -1, -1];
      for i := 0 to MAX_TCP
        invariant Polled(m, i, fds, connMap) && Mapped(m, connMap)
        invariant fds[..3] == [udpFd, tcpFd, channelFd]
        invariant forall j :: 3 <= j < |fds| ==> fds[j] !in {udpFd, tcpFd, channelFd}
      {
        SlotFacts(tcp.State(), i);
        PolledNext(m, i, fds, connMap);
        if tcp.slots[i].used && tcp.slots[i].fd >= 0 {
          assert tcp.slots[i].fd in ConnFds(m);
          fds := fds + [tcp.slots[i].fd];
          connMap := connMap + [i];
        }
      }
    }

    /** All events of one poll. A connection that hangs up is closed, even if an earlier
        event has closed it already. */
    method EventPass(poll: Poll) returns (ghost trace: seq<Record>, ghost fds: seq<int>, ghost connMap: seq<int>)
      requires Valid() && poll.Ready?
      modifies this`stopping, udp, udp.udpMap, tcp, tcp.slots, kernel, channel
      ensures Valid() && Extends(old(Now()), Now())
      ensures WholePass(old(Now()), Now(), trace, fds, connMap, Own(), poll)
      ensures forall k :: 0 <= k < MAX_TCP && old(tcp.slots[k]).used && old(tcp.slots[k]).fd in poll.broken ==> !tcp.slots[k].used
      ensures stopping == (old(stopping) || Hangs(poll, channelFd))
    {
      hide Extends, EventDone, Passed, Polled, HungUpClosed, OnlyCloses, Mapped, Right, Told, ConnFds, Partition, Hangs;
      hide U.Right, U.Told, U.EvictedUntold, UdpMap.Valid, UdpMap.Kept, TcpConns.Valid, TcpConns.Open, TcpConns.AllTold;
      hide Tunnel.Wired, Tunnel.Valid;
      ghost var m := tcp.slots[..];
      trace := [Now()];
      ExtendsSelf(Now());
      var pfds, conns := PollSet();
      fds, connMap := pfds, conns;
      PolledFacts(m, fds, connMap, poll.broken);
      NonePassed(Now(), Own(), poll);
      ChannelIsThird(fds);
      assert fds[..0] == [] && connMap[..0] == [];
      for i := 0 to |pfds|
        invariant |trace| == i + 1 && trace[0] == old(Now()) && trace[i] == Now()
        invariant Valid() && Mapped(tcp.slots[..], connMap) && Extends(trace[0], Now())
        invariant HungUpClosed(tcp.slots[..], fds, connMap, poll.broken, i)
        invariant Passed(trace, fds[..i], connMap[..i], Own(), poll)
        invariant stopping == (old(stopping) || (i >= 3 && Hangs(poll, channelFd)))
      {
        ghost var n, s := tcp.slots[..], Now();
        HandleEvent(pfds[i], conns[i], connMap, poll);
        HungUpNext(n, tcp.slots[..], fds, connMap, poll.broken, i);
        ExtendsOn(trace[0], s, Now());
        PassedOn(trace, Now(), fds, connMap, i, Own(), poll);
        trace := trace + [Now()];
      }
      assert fds[..|fds|] == fds && connMap[..|fds|] == connMap;
      AllHungUpClosed(m, tcp.slots[..], fds, connMap, poll.broken);
    }

    lemma ChannelIsThird(fds: seq<int>)
      requires Valid() && |fds| >= 3 && fds[..3] == Own()
      requires forall j :: 3 <= j < |fds| ==> fds[j] !in {udpFd, tcpFd, channelFd}
      ensures forall j :: 0 <= j < |fds| ==> (fds[j] == channelFd <==> j == 2)
    {
      assert forall j :: 0 <= j < 3 ==> fds[j] == fds[..3][j];
    }

    ghost function Own(): seq<int>
      reads this
    {
      [udpFd, tcpFd, channelFd]
    }

    /** One event. */
    method HandleEvent(fd: int, conn: int, ghost connMap: seq<int>, poll: Poll)
      requires Valid() && Mapped(tcp.slots[..], connMap) && conn in connMap && poll.Ready?
      modifies this`stopping, udp, udp.udpMap, tcp, tcp.slots, kernel, channel
      ensures Valid() && Mapped(tcp.slots[..], connMap) && Extends(old(Now()), Now())
      ensures EventDone(old(Now()), Now(), fd, conn, Own(), poll)
      ensures fd !in Own() ==> OnlyCloses(old(tcp.slots[..]), tcp.slots[..])
      ensures fd !in Own() && conn != -1 && fd in poll.broken ==> !tcp.slots[conn].used
      ensures stopping == (old(stopping) || (fd == channelFd && Hangs(poll, channelFd)))
    {
      hide Extends, AfterDatagrams, AfterAttempts, AfterHost, AfterConnection, OnlyCloses, Right, Grows;
      hide U.Right, U.Grows, U.Told, U.EvictedUntold, ConnFds, Partition;
      SlotFacts(tcp.State(), 0);
      if fd !in poll.readable + poll.broken {
        ExtendsSelf(Now());
        ShutGrows(tcp.State(), 0);
        return;
      }
      if fd == udpFd {
        OnDatagrams(poll.datagrams, poll.now);
      } else if fd == tcpFd {
        OnAttempts(poll.attempts, connMap);
      } else if fd == channelFd {
        OnHost(poll.host, fd in poll.broken, connMap);
      } else {
        OnConnection(conn, fd in poll.broken, poll.streams, connMap);
      }
    }

    method OnDatagrams(datagrams: seq<Query>, now: nat)
      requires Valid()
      modifies udp, udp.udpMap, channel
      ensures Valid() && Extends(old(Now()), Now()) && AfterDatagrams(old(Now()), Now(), datagrams, now)
    {
      ShutGrows(tcp.State(), 0);
      ghost var told := channel.delivered;
      udp.HandleUdpReadable(datagrams, now);
      OthersTold(told, channel.delivered, tcp.traffic);
    }

    method OnAttempts(attempts: seq<int>, ghost connMap: seq<int>)
      requires Valid() && Mapped(tcp.slots[..], connMap)
      modifies tcp, tcp.slots, kernel
      ensures Valid() && Mapped(tcp.slots[..], connMap)
      ensures Extends(old(Now()), Now()) && AfterAttempts(old(Now()), Now(), attempts)
    {
      ghost var b := tcp.State();
      U.StaysGrown(udp.State());
      tcp.HandleTcpAccept(attempts);
      AdmittedFills(b, tcp.kept, attempts);
      StillMapped(b.m, tcp.slots[..], connMap);
    }

    method OnHost(host: HostEvent, broken: bool, ghost connMap: seq<int>)
      requires Valid() && Mapped(tcp.slots[..], connMap)
      modifies this`stopping, udp, udp.udpMap, tcp, tcp.slots, kernel
      ensures Valid() && Mapped(tcp.slots[..], connMap)
      ensures Extends(old(Now()), Now()) && AfterHost(old(Now()), Now(), host, broken)
      ensures stopping == (old(stopping) || broken || host.HangUp? || DecodeMessage(host.bytes).Refused?)
    {
      ghost var m := tcp.slots[..];
      if broken || host.HangUp? {
        ExtendsSelf(Now());
        stopping := true;
      } else {
        HandleChannelReadable(host.bytes, host.sends);
        StillMapped(m, tcp.slots[..], connMap);
      }
    }

    /** A connection is broken, or what is there is read. */
    method OnConnection(conn: int, broken: bool, streams: seq<seq<Event>>, ghost connMap: seq<int>)
      requires Valid() && Mapped(tcp.slots[..], connMap) && conn in connMap
      modifies tcp, tcp.slots, kernel, channel
      ensures Valid() && Mapped(tcp.slots[..], connMap)
      ensures Extends(old(Now()), Now()) && AfterConnection(old(Now()), Now(), conn, broken, streams)
      ensures OnlyCloses(old(tcp.slots[..]), tcp.slots[..])
      ensures conn != -1 && broken ==> !tcp.slots[conn].used
    {
      hide Right, Grows, OnlyCloses, Served, ConnFds, Partition, U.Right, U.Grows, U.Told, U.EvictedUntold;
      ghost var b, told := tcp.State(), channel.delivered;
      SlotFacts(b, 0);
      U.StaysGrown(udp.State());
      ShutGrows(b, if conn == -1 then 0 else conn);
      if conn == -1 {
        return;
      }
      if broken {
        tcp.TcpClose(conn);
      } else {
        tcp.HandleTcpReadable(conn, Stream(streams, conn));
      }
      U.OthersTold(told, channel.delivered, udp.State());
      StillMapped(b.m, tcp.slots[..], connMap);
    }

    /** dns_tunnel_run from the first poll on: the polls are handled one after the other
        until one ends the loop. When it returns every descriptor handed out to the tunnel
        has been closed, and nothing else has changed since the last poll. */
    method Run(polls: seq<Poll>) returns (ghost trace: seq<Record>)
      requires Valid()
      modifies this, udp, udp.udpMap, tcp, tcp.slots, kernel, channel
      ensures udp.Valid() && tcp.Valid() && tcp.AllTold() && Extends(old(Now()), Now())
      ensures Handled(trace, old(Own()), polls) && trace[0] == old(Now())
      ensures if old(stopping) then |trace| == 1
              else |trace| == |polls| + 1 || (|trace| > 1 && Ends(polls[|trace| - 2], old(channelFd)))
      ensures Now() == trace[|trace| - 1].(tcp := trace[|trace| - 1].tcp.(m := tcp.slots[..]))
      ensures kernel.Valid() && kernel.open == others
      ensures forall i :: 0 <= i < MAX_TCP ==> !tcp.slots[i].used
    {
      hide Extends, PollDone, Handled, Sound, Hangs, Right, Told, U.Right, U.Told, U.EvictedUntold;
      hide UdpMap.Valid, UdpMap.Kept, TcpConns.Valid, TcpConns.Open, TcpConns.AllTold;
      ghost var r := Now();
      ExtendsSelf(r);
      RecordIsSound();
      NoneHandled(r, Own(), polls);
      trace := [r];
      var p, more := 0, true;
      while more && !stopping
        invariant Valid() && Extends(r, Now()) && Own() == old(Own())
        invariant p == |trace| - 1 <= |polls| && trace[0] == r && trace[p] == Now() && Handled(trace, Own(), polls)
        invariant more && !stopping ==> !old(stopping) && (p > 0 ==> !Ends(polls[p - 1], channelFd))
        invariant old(stopping) ==> p == 0
        invariant !old(stopping) && (stopping || !more) ==> p == |polls| || (p > 0 && Ends(polls[p - 1], channelFd))
        decreases |polls| - p, more, !stopping
      {
        if p == |polls| {
          stopping := true; // dns_tunnel_stop
          continue;
        }
        ghost var s := Now();
        var leave := OnePoll(polls[p]);
        RecordIsSound();
        HandledOn(trace, Now(), Own(), polls);
        ExtendsOn(r, s, Now());
        p, more, trace := p + 1, !leave, trace + [Now()];
      }
      ghost var s := Now();
      Shutdown();
      ExtendsOn(r, s, Now());
    }

    /** One turn of the loop. */
    method OnePoll(poll: Poll) returns (leave: bool)
      requires Valid()
      modifies this`stopping, udp, udp.udpMap, tcp, tcp.slots, kernel, channel
      ensures Valid() && Extends(old(Now()), Now())
      ensures PollDone(old(Now()), Now(), Own(), poll)
      ensures leave <==> poll.Failed?
      ensures stopping == (old(stopping) || Hangs(poll, channelFd))
    {
      ExtendsSelf(Now());
      leave := false;
      match poll
      case Interrupted =>
      case Failed =>
        leave := true;
      case TimedOut(now) =>
        U.SweptGrows(udp.State(), now, U.MAX_UDP);
        udp.ExpireUdp(now);
      case Ready(_, _, _, _, _, _, _) =>
        ghost var r := Now();
        ghost var trace, fds, connMap := EventPass(poll);
        assert WholePass(r, Now(), trace, fds, connMap, Own(), poll);
    }

    method Shutdown()
      requires Valid()
      modifies tcp.slots, kernel, this`udpFd, this`tcpFd, this`channelFd
      ensures udp.Valid() && tcp.Valid() && tcp.AllTold() && Extends(old(Now()), Now())
      ensures Now() == old(Now()).(tcp := old(Now()).tcp.(m := tcp.slots[..]))
      ensures kernel.Valid() && kernel.open == others
      ensures forall i :: 0 <= i < MAX_TCP ==> !tcp.slots[i].used
    {
      U.StaysGrown(udp.State());
      tcp.CloseConnections();
      CloseOwn();
    }

    method CloseOwn()
      requires kernel.Valid() && kernel.open == others + {udpFd, tcpFd, channelFd}
      requires udpFd != tcpFd && udpFd != channelFd && tcpFd != channelFd
      requires udpFd >= 0 && tcpFd >= 0 && channelFd >= 0
      requires others !! {udpFd, tcpFd, channelFd}
      modifies kernel, this`udpFd, this`tcpFd, this`channelFd
      ensures kernel.Valid() && kernel.open == others
    {
      if udpFd >= 0 {
        kernel.Close(udpFd);
        udpFd := -1;
      }
      if tcpFd >= 0 {
        kernel.Close(tcpFd);
        tcpFd := -1;
      }
      if channelFd >= 0 {
        kernel.Close(channelFd);
        channelFd := -1;
      }
    }
  }
}
