/** What the FreeBSD relay knows of its TCP clients (FreeBSD/dns_tunneling.h), as values:
    the table of connections, their traffic, and what changes them. */
module DnsTcpBooks {
  import opened Sockets
  import opened DnsIdentifiers
  import opened DnsFraming
  import opened DnsTcpReassembler

  const MAX_TCP := 32

  /** A slot, with the bytes its reader holds. */
  datatype TcpSlot = TcpSlot(used: bool, fd: int, id: nat, held: seq<byte>)

  /** A response written in full to a client, with the connection it went to. */
  datatype Write = Write(connection: nat, id: nat, dns: seq<byte>)

  /** What has passed over one connection: the bytes read from it, the requests of it
      that the host has taken, and the bytes written to it. */
  datatype Traffic = Traffic(received: seq<byte>, told: seq<seq<byte>>, written: seq<byte>)

  /** The table and its history: who owns each slot, the traffic of every connection
      that was ever accepted, and all responses. */
  datatype Books = Books(m: seq<TcpSlot>, owner: seq<nat>, traffic: seq<Traffic>, writes: seq<Write>)

  // ---------------------------------------------------------------- lookups

  predicate Matches(s: TcpSlot, id: nat) {
    s.used && s.id == id
  }

  /** The first used slot with this identifier; the length if there is none. */
  function Find(m: seq<TcpSlot>, id: nat): (i: nat)
    ensures i <= |m| && (i < |m| ==> Matches(m[i], id))
    ensures forall k :: 0 <= k < i ==> !Matches(m[k], id)
  {
    if m == [] || Matches(m[0], id) then 0 else 1 + Find(m[1..], id)
  }

  /** The first free slot; the length if there is none. */
  function Vacant(m: seq<TcpSlot>): (i: nat)
    ensures i <= |m| && (i < |m| ==> !m[i].used)
    ensures forall k :: 0 <= k < i ==> m[k].used
  {
    if m == [] || !m[0].used then 0 else 1 + Vacant(m[1..])
  }

  // ------------------------------------------------------------- what is right

  /** Every used slot belongs to a connection and a descriptor of its own. */
  ghost predicate Slots(b: Books) {
    && |b.m| == |b.owner| == MAX_TCP
    && (forall i :: 0 <= i < MAX_TCP && b.m[i].used ==>
          b.owner[i] < |b.traffic| && b.m[i].id == IdOf(b.owner[i]) && b.m[i].fd >= 0)
    && (forall i, j :: 0 <= i < j < MAX_TCP && b.m[i].used && b.m[j].used ==>
          b.owner[i] != b.owner[j] && b.m[i].fd != b.m[j].fd)
  }

  /** Responses fit their length and carry the identifier of the connection they went to. */
  ghost predicate Writes(b: Books) {
    forall w :: 0 <= w < |b.writes| ==>
      b.writes[w].connection < |b.traffic| && b.writes[w].id == IdOf(b.writes[w].connection) && |b.writes[w].dns| <= 65535
  }

  /** The responses to one connection, in order. */
  function DnsTo(writes: seq<Write>, connection: nat): seq<seq<byte>> {
    if writes == [] then []
    else
      var before, last := DnsTo(writes[..|writes| - 1], connection), writes[|writes| - 1];
      if last.connection == connection then before + [last.dns] else before
  }

  /** An open connection's reader holds the unparsed tail, the host has been told of all
      complete requests, and nothing has been written to it in part. */
  ghost predicate Live(t: Traffic, held: seq<byte>) {
    held == Tail(t.received) && t.told == Frames(t.received) && Tail(t.written) == []
  }

  /** The bytes written to a connection parse to its responses; the host was told no
      more than the requests that were received. */
  ghost predicate Flows(t: Traffic, answers: seq<seq<byte>>) {
    Frames(t.written) == answers && t.told <= Frames(t.received)
  }

  ghost predicate Streams(b: Books) {
    && (forall n :: 0 <= n < |b.traffic| ==> Flows(b.traffic[n], DnsTo(b.writes, n)))
    && forall i :: 0 <= i < |b.m| && i < |b.owner| && b.m[i].used && b.owner[i] < |b.traffic| ==>
         Live(b.traffic[b.owner[i]], b.m[i].held)
  }

  ghost predicate Right(b: Books) {
    Slots(b) && Writes(b) && Streams(b)
  }

  lemma SlotFacts(b: Books, i: nat)
    requires Right(b) && i < MAX_TCP
    ensures |b.m| == |b.owner| == MAX_TCP
    ensures b.m[i].used ==> b.owner[i] < |b.traffic| && b.m[i].fd >= 0 && Live(b.traffic[b.owner[i]], b.m[i].held)
  {
  }

  // ------------------------------------------------------------------- changes

  const FRESH := Traffic([], [], [])

  function Shut(s: TcpSlot): TcpSlot {
    TcpSlot(false, -1, s.id, [])
  }

  /** A connection gets slot i. */
  function TakenAt(b: Books, i: nat, fd: int): Books
    requires i < |b.m| && i < |b.owner|
  {
    b.(m := b.m[i := TcpSlot(true, fd, IdOf(|b.traffic|), [])], owner := b.owner[i := |b.traffic|], traffic := b.traffic + [FRESH])
  }

  function ShutAt(b: Books, i: nat): Books
    requires i < |b.m|
  {
    b.(m := b.m[i := Shut(b.m[i])])
  }

  function Retold(b: Books, n: nat, t: Traffic): Books
    requires n < |b.traffic|
  {
    b.(traffic := b.traffic[n := t])
  }

  /** A response is written in full to the connection of slot i. */
  function WrittenAt(b: Books, i: nat, dns: seq<byte>): Books
    requires i < |b.m| && i < |b.owner| && b.owner[i] < |b.traffic| && |dns| <= 65535
  {
    var n := b.owner[i];
    Retold(b, n, b.traffic[n].(written := b.traffic[n].written + Framed(dns))).(
      writes := b.writes + [Write(n, b.m[i].id, dns)])
  }

  /** Only a part of a response is written to it, and it is closed. */
  function BrokenAt(b: Books, i: nat, part: seq<byte>): Books
    requires i < |b.m| && i < |b.owner| && b.owner[i] < |b.traffic|
  {
    var n := b.owner[i];
    ShutAt(Retold(b, n, b.traffic[n].(written := b.traffic[n].written + part)), i)
  }

  /** The connection of slot i is read, and the host takes some requests. */
  function ReadAt(b: Books, i: nat, data: seq<byte>, requests: seq<seq<byte>>): Books
    requires i < |b.m| && i < |b.owner| && b.owner[i] < |b.traffic|
  {
    var n := b.owner[i];
    var t := b.traffic[n].(received := b.traffic[n].received + data, told := b.traffic[n].told + requests);
    Retold(b, n, t).(m := b.m[i := b.m[i].(held := Tail(t.received))])
  }

  // ------------------------------------------------------------- what is written

  lemma {:induction false} NoneWritten(writes: seq<Write>, n: nat)
    requires forall w :: 0 <= w < |writes| ==> writes[w].connection < n
    ensures DnsTo(writes, n) == []
  {
    if writes != [] {
      NoneWritten(writes[..|writes| - 1], n);
    }
  }

  lemma DnsToSnoc(writes: seq<Write>, w: Write, n: nat)
    ensures DnsTo(writes + [w], n) == DnsTo(writes, n) + if w.connection == n then [w.dns] else []
  {
    assert (writes + [w])[..|writes|] == writes;
  }

  /** A framed response behind complete ones is one frame more. */
  lemma FramedParses(written: seq<byte>, dns: seq<byte>)
    requires Tail(written) == [] && |dns| <= 65535
    ensures Frames(written + Framed(dns)) == Frames(written) + [dns]
    ensures Tail(written + Framed(dns)) == []
  {
    ParseAppend(written, Framed(dns));
    FramedFront(dns, []);
    assert [] + Framed(dns) == Framed(dns) == Framed(dns) + [];
    FirstFrame(Framed(dns));
  }

  /** A part of one is none. */
  lemma PartParses(written: seq<byte>, dns: seq<byte>, part: seq<byte>)
    requires Tail(written) == [] && |dns| <= 65535 && part <= Framed(dns) && part != Framed(dns)
    ensures Frames(written + part) == Frames(written)
  {
    ParseAppend(written, part);
    assert [] + part == part;
    if |part| >= 2 {
      FramedFront(dns, []);
      assert Framed(dns) + [] == Framed(dns);
      assert part[0] == Framed(dns)[0] && part[1] == Framed(dns)[1];
      assert Length(part) == Length(Framed(dns));
    }
    assert !Complete(part);
  }

  function AtMost(n: int, len: nat): int {
    if n < len then n else len
  }

  /** How many of `len` bytes go out, where each send takes as many as it can of those
      left, and one that takes none, or is not listed, fails. */
  function Sent(sends: seq<int>, len: nat): (n: nat)
    ensures n <= len
  {
    if len == 0 || sends == [] || sends[0] <= 0 then 0
    else AtMost(sends[0], len) + Sent(sends[1..], len - AtMost(sends[0], len))
  }

  function Total(sends: seq<int>): int {
    if sends == [] then 0 else sends[0] + Total(sends[1..])
  }

  /** What goes out is what the sends before the first failing one take, and no more than there is. */
  lemma {:induction false} SentIsTotal(sends: seq<int>, len: nat, k: nat)
    requires k <= |sends| && (forall i :: 0 <= i < k ==> sends[i] > 0) && (k < |sends| ==> sends[k] <= 0)
    ensures Sent(sends, len) == if Total(sends[..k]) < len then Total(sends[..k]) else len
  {
    if k > 0 {
      assert sends[..k][1..] == sends[1..][..k - 1];
      SentIsTotal(sends[1..], len - AtMost(sends[0], len), k - 1);
      TotalPositive(sends[1..][..k - 1]);
    }
  }

  lemma {:induction false} TotalPositive(sends: seq<int>)
    requires forall i :: 0 <= i < |sends| ==> sends[i] > 0
    ensures Total(sends) >= 0
  {
    if sends != [] {
      TotalPositive(sends[1..]);
    }
  }

  /** So sends that take enough between them send everything, whatever comes after them. */
  lemma {:induction false} EnoughIsSent(sends: seq<int>, len: nat, k: nat)
    requires k <= |sends| && (forall i :: 0 <= i < k ==> sends[i] > 0) && Total(sends[..k]) >= len
    ensures Sent(sends, len) == len
  {
    if k > 0 && len > 0 {
      assert sends[..k][1..] == sends[1..][..k - 1];
      TotalPositive(sends[1..][..k - 1]);
      EnoughIsSent(sends[1..], len - AtMost(sends[0], len), k - 1);
    }
  }

  // ------------------------------------------------------------- changes keep it right

  lemma TakenIsRight(b: Books, i: nat, fd: int)
    requires Right(b) && i < MAX_TCP && !b.m[i].used && fd >= 0 && fd !in ConnFds(b.m)
    ensures Right(TakenAt(b, i, fd))
  {
    var r := TakenAt(b, i, fd);
    FdUnused(b.m, fd);
    forall n | 0 <= n < |r.traffic| ensures Flows(r.traffic[n], DnsTo(r.writes, n)) {
      if n == |b.traffic| {
        NoneWritten(b.writes, n);
      } else {
        assert Flows(b.traffic[n], DnsTo(b.writes, n));
      }
    }
  }

  lemma AcceptedIsRight(b: Books, fd: int)
    requires Right(b) && fd >= 0 && fd !in ConnFds(b.m)
    ensures Right(Accepted(b, fd))
  {
    if Vacant(b.m) < MAX_TCP {
      TakenIsRight(b, Vacant(b.m), fd);
    }
  }

  lemma AcceptedFds(b: Books, fd: int, all: set<int>, kept: set<int>)
    requires Right(b) && Partition(all, kept, ConnFds(b.m)) && fd !in all
    ensures Partition(if Vacant(b.m) < MAX_TCP then all + {fd} else all, kept, ConnFds(Accepted(b, fd).m))
  {
    var i := Vacant(b.m);
    if i < MAX_TCP {
      FdsTaken(b.m, i, TcpSlot(true, fd, IdOf(|b.traffic|), []));
    }
  }

  lemma ShutIsRight(b: Books, i: nat)
    requires Right(b) && i < MAX_TCP
    ensures Right(ShutAt(b, i))
  {
  }

  lemma WrittenIsRight(b: Books, i: nat, dns: seq<byte>)
    requires Right(b) && i < MAX_TCP && b.m[i].used && |dns| <= 65535
    ensures Right(WrittenAt(b, i, dns))
  {
    var r, n := WrittenAt(b, i, dns), b.owner[i];
    var w := Write(n, b.m[i].id, dns);
    FramedParses(b.traffic[n].written, dns);
    forall k | 0 <= k < |r.traffic| ensures Flows(r.traffic[k], DnsTo(r.writes, k)) {
      DnsToSnoc(b.writes, w, k);
      assert Flows(b.traffic[k], DnsTo(b.writes, k));
    }
  }

  lemma BrokenIsRight(b: Books, i: nat, dns: seq<byte>, part: seq<byte>)
    requires Right(b) && i < MAX_TCP && b.m[i].used && PartOf(dns, part)
    ensures Right(BrokenAt(b, i, part))
  {
    var r, n := BrokenAt(b, i, part), b.owner[i];
    if |dns| <= 65535 {
      PartParses(b.traffic[n].written, dns, part);
    } else {
      assert b.traffic[n].written + part == b.traffic[n].written;
    }
    forall k | 0 <= k < |r.traffic| ensures Flows(r.traffic[k], DnsTo(r.writes, k)) {
      assert Flows(b.traffic[k], DnsTo(b.writes, k));
    }
  }

  /** Reading to the end of what there is. */
  lemma ReadIsRight(b: Books, i: nat, data: seq<byte>, requests: seq<seq<byte>>)
    requires Right(b) && i < MAX_TCP && b.m[i].used
    requires b.traffic[b.owner[i]].told + requests == Frames(b.traffic[b.owner[i]].received + data)
    ensures Right(ReadAt(b, i, data, requests))
  {
    var r := ReadAt(b, i, data, requests);
    forall k | 0 <= k < |r.traffic| ensures Flows(r.traffic[k], DnsTo(r.writes, k)) {
      assert Flows(b.traffic[k], DnsTo(b.writes, k));
    }
  }

  /** Reading that ends the connection. */
  lemma LastReadIsRight(b: Books, i: nat, data: seq<byte>, requests: seq<seq<byte>>)
    requires Right(b) && i < MAX_TCP && b.m[i].used
    requires b.traffic[b.owner[i]].told + requests <= Frames(b.traffic[b.owner[i]].received + data)
    ensures Right(ShutAt(ReadAt(b, i, data, requests), i))
  {
    var r := ShutAt(ReadAt(b, i, data, requests), i);
    forall k | 0 <= k < |r.traffic| ensures Flows(r.traffic[k], DnsTo(r.writes, k)) {
      assert Flows(b.traffic[k], DnsTo(b.writes, k));
    }
  }

  // -------------------------------------------------------------------- descriptors

  function ConnFds(m: seq<TcpSlot>): set<int> {
    set i | 0 <= i < |m| && m[i].used :: m[i].fd
  }

  /** `all` is split into `kept` and `conns`. */
  ghost predicate Partition(all: set<int>, kept: set<int>, conns: set<int>) {
    all == kept + conns && kept !! conns
  }

  lemma FdUnused(m: seq<TcpSlot>, fd: int)
    requires fd !in ConnFds(m)
    ensures forall i :: 0 <= i < |m| && m[i].used ==> m[i].fd != fd
  {
    forall i | 0 <= i < |m| && m[i].used ensures m[i].fd != fd {
      assert m[i].fd in ConnFds(m);
    }
  }

  lemma FdsTaken(m: seq<TcpSlot>, i: nat, s: TcpSlot)
    requires i < |m| && !m[i].used && s.used
    ensures ConnFds(m[i := s]) == ConnFds(m) + {s.fd}
  {
    var n := m[i := s];
    assert n[i].fd in ConnFds(n);
    forall fd | fd in ConnFds(m) ensures fd in ConnFds(n) {
      var k :| 0 <= k < |m| && m[k].used && m[k].fd == fd;
      assert n[k] == m[k];
    }
  }

  /** Shutting a slot that has a descriptor gives up that one, and only that one. */
  lemma FdsShut(m: seq<TcpSlot>, i: nat)
    requires i < |m| && (m[i].used ==> forall k :: 0 <= k < |m| && k != i && m[k].used ==> m[k].fd != m[i].fd)
    ensures ConnFds(m[i := Shut(m[i])]) == if m[i].used then ConnFds(m) - {m[i].fd} else ConnFds(m)
  {
    var n := m[i := Shut(m[i])];
    forall fd | fd in ConnFds(m) && (m[i].used ==> fd != m[i].fd) ensures fd in ConnFds(n) {
      var k :| 0 <= k < |m| && m[k].used && m[k].fd == fd;
      assert n[k] == m[k];
    }
  }

  lemma ShutFds(b: Books, i: nat, all: set<int>, kept: set<int>)
    requires Right(b) && i < MAX_TCP && Partition(all, kept, ConnFds(b.m))
    ensures b.m[i].used ==> b.m[i].fd in all && Partition(all - {b.m[i].fd}, kept, ConnFds(ShutAt(b, i).m))
    ensures !b.m[i].used ==> Partition(all, kept, ConnFds(ShutAt(b, i).m))
  {
    FdsShut(b.m, i);
    if b.m[i].used {
      assert b.m[i].fd in ConnFds(b.m);
    }
  }

  // ------------------------------------------------------------------- over runs

  ghost predicate Flowed(s: Traffic, t: Traffic) {
    s.received <= t.received && s.told <= t.told && s.written <= t.written
  }

  /** Nothing in the history is taken back, and a slot is given up only by being shut. */
  ghost predicate Grows(b: Books, c: Books) {
    && b.writes <= c.writes
    && |b.traffic| <= |c.traffic|
    && (forall n :: 0 <= n < |b.traffic| ==> Flowed(b.traffic[n], c.traffic[n]))
    && |b.m| == |c.m| && |b.owner| == |c.owner|
    && forall i :: 0 <= i < |b.m| && i < |b.owner| && c.m[i].used && c.owner[i] < |b.traffic| ==>
         b.m[i].used && c.m[i].fd == b.m[i].fd && c.m[i].id == b.m[i].id && c.owner[i] == b.owner[i]
  }

  lemma GrowsOn(b: Books, c: Books, d: Books)
    requires Grows(b, c) && Grows(c, d)
    ensures Grows(b, d)
  {
    forall n | 0 <= n < |b.traffic| ensures Flowed(b.traffic[n], d.traffic[n]) {
      assert Flowed(b.traffic[n], c.traffic[n]) && Flowed(c.traffic[n], d.traffic[n]);
    }
  }

  /** No slot is taken. */
  ghost predicate OnlyCloses(m: seq<TcpSlot>, n: seq<TcpSlot>) {
    && |m| == |n|
    && forall i :: 0 <= i < |m| ==> n[i] == Shut(m[i]) || (n[i].used == m[i].used && n[i].fd == m[i].fd && n[i].id == m[i].id)
  }

  /** Free slots are taken, others stay. */
  ghost predicate OnlyFills(m: seq<TcpSlot>, n: seq<TcpSlot>) {
    |m| == |n| && forall i :: 0 <= i < |m| ==> n[i] == m[i] || (!m[i].used && n[i].used)
  }

  lemma {:induction false} AdmittedFills(b: Books, kept: set<int>, fds: seq<int>)
    ensures OnlyFills(b.m, Admitted(b, kept, fds).m) && Admitted(b, kept, fds).writes == b.writes
    decreases |fds|
  {
    if fds != [] && Admissible(b, kept, fds[0]) {
      AdmittedFills(Accepted(b, fds[0]), kept, fds[1..]);
    }
  }

  lemma AcceptedGrows(b: Books, fd: int)
    requires Right(b)
    ensures Grows(b, Accepted(b, fd))
  {
  }

  lemma ShutGrows(b: Books, i: nat)
    requires i < |b.m|
    ensures Grows(b, ShutAt(b, i)) && OnlyCloses(b.m, ShutAt(b, i).m)
    ensures Grows(b, b) && OnlyCloses(b.m, b.m)
  {
  }

  lemma RoutedGrows(b: Books, i: nat, dns: seq<byte>, sends: seq<int>)
    requires Right(b) && i < MAX_TCP && b.m[i].used
    ensures var r := RoutedAt(b, i, dns, sends); Grows(b, r) && OnlyCloses(b.m, r.m)
  {
    hide Grows, OnlyCloses, WrittenAt, BrokenAt;
    SlotFacts(b, i);
    BrokenGrows(b, i, []);
    if |dns| <= 65535 {
      WrittenGrows(b, i, dns);
      BrokenGrows(b, i, Framed(dns)[..Sent(sends, 2 + |dns|)]);
    }
  }

  lemma WrittenGrows(b: Books, i: nat, dns: seq<byte>)
    requires Right(b) && i < MAX_TCP && b.m[i].used && |dns| <= 65535
    ensures Grows(b, WrittenAt(b, i, dns)) && OnlyCloses(b.m, WrittenAt(b, i, dns).m)
  {
  }

  lemma BrokenGrows(b: Books, i: nat, part: seq<byte>)
    requires Right(b) && i < MAX_TCP && b.m[i].used
    ensures Grows(b, BrokenAt(b, i, part)) && OnlyCloses(b.m, BrokenAt(b, i, part).m)
  {
  }

  lemma ReadGrows(b: Books, i: nat, data: seq<byte>, requests: seq<seq<byte>>)
    requires Right(b) && i < MAX_TCP && b.m[i].used
    ensures var r := ReadAt(b, i, data, requests);
            && Grows(b, r) && OnlyCloses(b.m, r.m)
            && Grows(b, ShutAt(r, i)) && OnlyCloses(b.m, ShutAt(r, i).m)
  {
  }

  // --------------------------------------------------------------- what the host is told

  predicate AsksFor(t: Tunneled, traffic: seq<Traffic>, n: nat) {
    n < |traffic| && t.id == IdOf(n) && t.payload in traffic[n].told
  }

  /** Every TCP message to the host is a request of the connection with its identifier. */
  ghost predicate Told(told: seq<Tunneled>, traffic: seq<Traffic>) {
    forall j :: 0 <= j < |told| && told[j].protocol == IPPROTO_TCP ==> exists n: nat :: AsksFor(told[j], traffic, n)
  }

  lemma OthersTold(told: seq<Tunneled>, told': seq<Tunneled>, traffic: seq<Traffic>)
    requires Told(told, traffic) && MoreOf(IPPROTO_UDP, told, told')
    ensures Told(told', traffic)
  {
    forall j | 0 <= j < |told'| && told'[j].protocol == IPPROTO_TCP ensures exists n: nat :: AsksFor(told'[j], traffic, n) {
      assert told'[j] == told[j];
    }
  }

  lemma ToldOnMore(told: seq<Tunneled>, b: Books, c: Books)
    requires Told(told, b.traffic) && Grows(b, c)
    ensures Told(told, c.traffic)
  {
    forall j | 0 <= j < |told| && told[j].protocol == IPPROTO_TCP ensures exists n: nat :: AsksFor(told[j], c.traffic, n) {
      var n: nat :| AsksFor(told[j], b.traffic, n);
      assert Flowed(b.traffic[n], c.traffic[n]);
      assert AsksFor(told[j], c.traffic, n);
    }
  }

  lemma FdsHeld(m: seq<TcpSlot>, k: nat, held: seq<byte>)
    requires k < |m|
    ensures ConnFds(m[k := m[k].(held := held)]) == ConnFds(m)
  {
    var n := m[k := m[k].(held := held)];
    forall fd ensures fd in ConnFds(m) <==> fd in ConnFds(n) {
      if i :| 0 <= i < |m| && m[i].used && m[i].fd == fd {
        assert n[i].used && n[i].fd == fd;
      }
      if i :| 0 <= i < |n| && n[i].used && n[i].fd == fd {
        assert m[i].used && m[i].fd == fd;
      }
    }
  }

  lemma RequestsTold(told: seq<Tunneled>, traffic: seq<Traffic>, n: nat, requests: seq<seq<byte>>)
    requires Told(told, traffic) && n < |traffic| && forall i :: 0 <= i < |requests| ==> requests[i] in traffic[n].told
    ensures Told(told + Labelled(IdOf(n), requests), traffic)
  {
    var all := told + Labelled(IdOf(n), requests);
    forall j | 0 <= j < |all| && all[j].protocol == IPPROTO_TCP ensures exists k: nat :: AsksFor(all[j], traffic, k) {
      if j < |told| {
        assert all[j] == told[j];
      } else {
        assert AsksFor(all[j], traffic, n);
      }
    }
  }

  // ---------------------------------------------------------------- what follows from it

  /** As long as identifiers have not come back: a response with the identifier of a
      request went to the connection that request was received on, never to a later one
      in the same slot. */
  lemma ResponseGoesToItsRequest(b: Books, told: seq<Tunneled>, j: nat, w: nat)
    requires Right(b) && Told(told, b.traffic) && |b.traffic| <= IDS
    requires j < |told| && told[j].protocol == IPPROTO_TCP && w < |b.writes| && b.writes[w].id == told[j].id
    ensures told[j].payload in Frames(b.traffic[b.writes[w].connection].received)
  {
    var n: nat :| AsksFor(told[j], b.traffic, n);
    IdsAreDistinct(n, b.writes[w].connection, |b.traffic|);
    assert Flows(b.traffic[n], DnsTo(b.writes, n));
  }

  lemma LateResponseIsDropped(b: Books, w: nat, connection: nat)
    requires Right(b) && |b.traffic| <= IDS
    requires w < |b.writes| && connection < |b.traffic| && b.writes[w].id == IdOf(connection)
    ensures b.writes[w].connection == connection
  {
    IdsAreDistinct(b.writes[w].connection, connection, |b.traffic|);
  }

  lemma LiveIdsDistinct(b: Books, i: nat, j: nat)
    requires Right(b) && |b.traffic| <= IDS
    requires i < j < MAX_TCP && b.m[i].used && b.m[j].used
    ensures b.m[i].id != b.m[j].id
  {
    if b.m[i].id == b.m[j].id {
      IdsAreDistinct(b.owner[i], b.owner[j], |b.traffic|);
      assert false;
    }
  }

  /** The bytes written to one client parse back to the responses written in full, in
      order; while it is connected nothing is left over. */
  lemma ClientReadsAnswers(b: Books, connection: nat)
    requires Right(b) && connection < |b.traffic|
    ensures Frames(b.traffic[connection].written) == DnsTo(b.writes, connection)
    ensures forall i :: 0 <= i < MAX_TCP && b.m[i].used && b.owner[i] == connection ==>
              Encodable(DnsTo(b.writes, connection)) && b.traffic[connection].written == Encode(DnsTo(b.writes, connection))
  {
    assert Flows(b.traffic[connection], DnsTo(b.writes, connection));
    var s := b.traffic[connection].written;
    ParseCovers(s);
    assert Encode(Frames(s)) + [] == Encode(Frames(s));
  }

  // ------------------------------------------------------------------ the steps as relations

  /** accept has handed out a descriptor: it becomes a connection in the first free
      slot; if all are used it is closed again. */
  function Accepted(b: Books, fd: int): Books {
    var i := Vacant(b.m);
    if i < |b.m| && i < |b.owner| then TakenAt(b, i, fd) else b
  }

  /** accept will hand out these descriptors one after the other, until it fails: one that
      is negative or in use stands for a failure. */
  predicate Admissible(b: Books, kept: set<int>, fd: int) {
    fd >= 0 && fd !in kept && fd !in ConnFds(b.m)
  }

  function Admitted(b: Books, kept: set<int>, fds: seq<int>): Books
    decreases |fds|
  {
    if fds == [] || !Admissible(b, kept, fds[0]) then b else Admitted(Accepted(b, fds[0]), kept, fds[1..])
  }

  /** The descriptors handed out then. */
  function HandedOut(b: Books, kept: set<int>, fds: seq<int>): multiset<int>
    decreases |fds|
  {
    if fds == [] || !Admissible(b, kept, fds[0]) then multiset{}
    else multiset{fds[0]} + HandedOut(Accepted(b, fds[0]), kept, fds[1..])
  }

  /** What may have been written of a response that is not written in full. */
  ghost predicate PartOf(dns: seq<byte>, part: seq<byte>) {
    if |dns| <= 65535 then part <= Framed(dns) && part != Framed(dns) else part == []
  }

  /** A response is written to the connection of slot i; or, if it is too large or cannot
      be written in full, that connection is closed with a part written. */
  function RoutedAt(b: Books, i: nat, dns: seq<byte>, sends: seq<int>): Books
    requires i < |b.m| && i < |b.owner| && b.owner[i] < |b.traffic|
  {
    if |dns| > 65535 then BrokenAt(b, i, [])
    else
      var n := Sent(sends, 2 + |dns|);
      if n == 2 + |dns| then WrittenAt(b, i, dns) else BrokenAt(b, i, Framed(dns)[..n])
  }

  /** It goes to the first connection with its identifier, if there is one. */
  function Routed(b: Books, id: nat, dns: seq<byte>, sends: seq<int>): Books {
    var i := Find(b.m, id);
    if i < |b.m| && i < |b.owner| && b.owner[i] < |b.traffic| then RoutedAt(b, i, dns, sends) else b
  }

  /** The first live connection with an identifier. */
  predicate FirstWith(m: seq<TcpSlot>, id: nat, i: int) {
    && 0 <= i < |m| && m[i].used && m[i].id == id
    && forall k :: 0 <= k < i ==> !(m[k].used && m[k].id == id)
  }

  /** That connection's stream gets the length, most significant byte first, and the
      response; or, if not all of it goes out, the part that does, and it is closed. One
      that no length can be given for closes it at once. All else stays. */
  ghost predicate Delivered(b: Books, c: Books, id: nat, dns: seq<byte>, sends: seq<int>) {
    && c.owner == b.owner
    && (forall i :: FirstWith(b.m, id, i) && i < |b.owner| && b.owner[i] < |b.traffic| ==>
          DeliveredTo(b, c, i, dns, if |dns| <= 65535 then Sent(sends, 2 + |dns|) else 0))
    && ((forall i :: 0 <= i < |b.m| ==> !(b.m[i].used && b.m[i].id == id)) ==> c == b)
  }

  ghost predicate DeliveredTo(b: Books, c: Books, i: nat, dns: seq<byte>, sent: nat)
    requires i < |b.m| && i < |b.owner| && b.owner[i] < |b.traffic|
  {
    var n, framed := b.owner[i], [(|dns| / 256) % 256, |dns| % 256] + dns;
    && sent <= |framed|
    && c.traffic == b.traffic[n := b.traffic[n].(written := b.traffic[n].written + framed[..sent])]
    && (if |dns| <= 65535 && sent == 2 + |dns| then c.m == b.m && c.writes == b.writes + [Write(n, b.m[i].id, dns)]
        else c.m == b.m[i := TcpSlot(false, -1, b.m[i].id, [])] && c.writes == b.writes)
  }

  lemma RoutedDelivers(b: Books, id: nat, dns: seq<byte>, sends: seq<int>)
    requires Right(b)
    ensures Delivered(b, Routed(b, id, dns, sends), id, dns, sends)
  {
    var n := Find(b.m, id);
    forall i | FirstWith(b.m, id, i) && i < |b.owner| && b.owner[i] < |b.traffic|
      ensures DeliveredTo(b, Routed(b, id, dns, sends), i, dns, if |dns| <= 65535 then Sent(sends, 2 + |dns|) else 0)
    {
      assert i == n by {
        assert n < |b.m| ==> Matches(b.m[n], id);
      }
      RoutedAtDelivers(b, i, dns, sends);
    }
  }

  lemma RoutedAtDelivers(b: Books, i: nat, dns: seq<byte>, sends: seq<int>)
    requires i < |b.m| && i < |b.owner| && b.owner[i] < |b.traffic|
    ensures DeliveredTo(b, RoutedAt(b, i, dns, sends), i, dns, if |dns| <= 65535 then Sent(sends, 2 + |dns|) else 0)
  {
    if |dns| <= 65535 {
      var framed := [(|dns| / 256) % 256, |dns| % 256] + dns;
      assert Framed(dns) == framed && framed[..2 + |dns|] == framed;
    } else {
      var framed := [(|dns| / 256) % 256, |dns| % 256] + dns;
      assert framed[..0] == [];
    }
  }

  /** In a right table the slot of a live connection is the first with its identifier, as
      long as identifiers have not come back. */
  lemma LiveIsFirst(b: Books, i: nat)
    requires Right(b) && |b.traffic| <= IDS && i < MAX_TCP && b.m[i].used
    ensures FirstWith(b.m, IdOf(b.owner[i]), i)
  {
    forall k | 0 <= k < i ensures !(b.m[k].used && b.m[k].id == b.m[i].id) {
      if b.m[k].used && b.m[k].id == b.m[i].id {
        LiveIdsDistinct(b, k, i);
      }
    }
  }

  /** A connection is read: what is new on it is parsed behind what was there, and of the
      new requests the host is told as many, in order, as it takes. If it takes them all,
      everything has been read and the connection stays exactly if the stream is open, with
      the unparsed tail held for it; otherwise it is closed. */
  ghost predicate Served(b: Books, c: Books, i: nat, script: seq<Event>, told: seq<Tunneled>, told': seq<Tunneled>,
                         takes: seq<bool>, takes': seq<bool>) {
    && i < |b.m| && i < |b.owner| && b.owner[i] < |b.traffic| && b.m[i].used
    && var t, s := b.traffic[b.owner[i]], b.m[i];
       var all := Frames(t.received + Pending(script));
       && t.told <= all
       && var n := |all| - |t.told|;
          var k := Taken(takes, n);
          var requests := all[|t.told|..|t.told| + k];
          && told' == told + Labelled(s.id, requests) && takes' == AfterSends(takes, n)
          && c.owner == b.owner && c.writes == b.writes
          && if k == n then
               && c.traffic == b.traffic[b.owner[i] := Traffic(t.received + Pending(script), all, t.written)]
               && c.m == b.m[i := if EndOf(script).Open? then TcpSlot(true, s.fd, s.id, Tail(t.received + Pending(script)))
                                  else TcpSlot(false, -1, s.id, [])]
             else
               && c.m == b.m[i := TcpSlot(false, -1, s.id, [])]
               && exists data :: CutAt(b, c, i, script, t.told + requests, data)
  }

  /** Not all of what there was has been read. */
  ghost predicate CutAt(b: Books, c: Books, i: nat, script: seq<Event>, told: seq<seq<byte>>, data: seq<byte>) {
    && i < |b.owner| && b.owner[i] < |b.traffic| && data <= Pending(script)
    && var t := b.traffic[b.owner[i]];
       c.traffic == b.traffic[b.owner[i] := Traffic(t.received + data, told, t.written)]
  }

  /** The same, with what was read and told. */
  ghost predicate ServedWith(b: Books, c: Books, i: nat, script: seq<Event>, data: seq<byte>, requests: seq<seq<byte>>) {
    && i < |b.m| && i < |b.owner| && b.owner[i] < |b.traffic| && b.m[i].used
    && data <= Pending(script)
    && var r := ReadAt(b, i, data, requests);
       var t := r.traffic[b.owner[i]];
       || (data == Pending(script) && t.told == Frames(t.received) && c == if EndOf(script).Open? then r else ShutAt(r, i))
       || (t.told < Frames(t.received) && c == ShutAt(r, i))
  }

  /** What the host was told then are requests of that connection. */
  lemma ServedIsTold(b: Books, c: Books, i: nat, script: seq<Event>, told: seq<Tunneled>, data: seq<byte>, requests: seq<seq<byte>>)
    requires Right(b) && Told(told, b.traffic) && ServedWith(b, c, i, script, data, requests)
    ensures Grows(b, c) && OnlyCloses(b.m, c.m)
    ensures Told(told + Labelled(b.m[i].id, requests), c.traffic)
  {
    ReadGrows(b, i, data, requests);
    ToldOnMore(told, b, c);
    var n := b.owner[i];
    assert c.traffic[n].told == b.traffic[n].told + requests;
    RequestsTold(told, c.traffic, n, requests);
  }

  /** What the reader leaves, put into the table. */
  lemma ReadIsServed(b: Books, c: Books, i: nat, script: seq<Event>, told: seq<Tunneled>, takes: seq<bool>,
                     data: seq<byte>, requests: seq<seq<byte>>)
    requires Right(b) && i < MAX_TCP && b.m[i].used && data <= Pending(script)
    requires var t := b.traffic[b.owner[i]];
             var all := Frames(t.received + Pending(script));
             var n := |all| - |t.told|;
             && t.told <= all && requests == all[|t.told|..|t.told| + Taken(takes, n)]
             && (Taken(takes, n) == n ==> data == Pending(script))
             && c == (if Taken(takes, n) == n && EndOf(script).Open? then ReadAt(b, i, data, requests)
                      else ShutAt(ReadAt(b, i, data, requests), i))
    ensures var n := |Frames(b.traffic[b.owner[i]].received + Pending(script))| - |b.traffic[b.owner[i]].told|;
            Served(b, c, i, script, told, told + Labelled(b.m[i].id, requests), takes, AfterSends(takes, n))
  {
    hide Frames, Tail;
    var t := b.traffic[b.owner[i]];
    var all := Frames(t.received + Pending(script));
    var n := |all| - |t.told|;
    if Taken(takes, n) == n {
      assert t.told + requests == all;
    } else {
      assert CutAt(b, c, i, script, t.told + requests, data);
    }
  }

  /** Accepting leaves a live connection and its traffic as they are. */
  lemma {:induction false} AdmittedKeeps(b: Books, kept: set<int>, fds: seq<int>, i: nat)
    requires Right(b) && i < MAX_TCP && b.m[i].used
    ensures var c := Admitted(b, kept, fds);
            && Right(c) && |c.m| == MAX_TCP && c.m[i] == b.m[i] && c.owner[i] == b.owner[i] && b.traffic <= c.traffic
            && c.writes == b.writes
    decreases |fds|
  {
    SlotFacts(b, i);
    if fds != [] && Admissible(b, kept, fds[0]) {
      AcceptedIsRight(b, fds[0]);
      AcceptedKeeps(b, fds[0], i);
      hide Right, Accepted;
      AdmittedKeeps(Accepted(b, fds[0]), kept, fds[1..], i);
    }
  }

  lemma AcceptedKeeps(b: Books, fd: int, i: nat)
    requires Right(b) && i < MAX_TCP && b.m[i].used
    ensures |b.m| == |b.owner| == MAX_TCP
    ensures var c := Accepted(b, fd);
            |c.m| == |c.owner| == MAX_TCP && c.m[i] == b.m[i] && c.owner[i] == b.owner[i] && b.traffic <= c.traffic && c.writes == b.writes
  {
  }

  lemma DeliveredSize(b: Books, c: Books, i: nat, dns: seq<byte>, sends: seq<int>)
    requires Right(b) && i < MAX_TCP && b.m[i].used && Delivered(b, c, IdOf(b.owner[i]), dns, sends)
    ensures |c.traffic| == |b.traffic| && b.m[i].id == IdOf(b.owner[i])
  {
    var k := Find(b.m, b.m[i].id);
    assert FirstWith(b.m, b.m[i].id, k) by {
      assert forall j :: 0 <= j < k ==> !Matches(b.m[j], b.m[i].id);
      assert !(i < k);
    }
  }

  function Free(m: seq<TcpSlot>): set<int> {
    set i | 0 <= i < |m| && !m[i].used
  }

  /** While there is room, every descriptor that accept hands out becomes a connection. */
  lemma {:induction false} AllAreConnected(b: Books, kept: set<int>, fds: seq<int>, n: nat)
    requires Right(b) && n < |fds| && |Free(b.m)| > n
    requires forall i :: 0 <= i <= n ==> fds[i] >= 0 && fds[i] !in kept && fds[i] !in ConnFds(b.m)
    requires forall i, j :: 0 <= i < j <= n ==> fds[i] != fds[j]
    ensures fds[n] in ConnFds(Admitted(b, kept, fds).m)
    decreases n
  {
    var c := Accepted(b, fds[0]);
    AcceptedIsRight(b, fds[0]);
    FirstConnected(b, fds[0]);
    hide Right, Accepted, Free, ConnFds;
    if n == 0 {
      var v := Vacant(b.m);
      AdmittedKeeps(c, kept, fds[1..], v);
      FdIsLive(Admitted(c, kept, fds[1..]).m, v);
    } else {
      AllAreConnected(c, kept, fds[1..], n - 1);
    }
  }

  lemma FdIsLive(m: seq<TcpSlot>, i: nat)
    requires i < |m| && m[i].used
    ensures m[i].fd in ConnFds(m)
  {
  }

  lemma FirstConnected(b: Books, fd: int)
    requires Right(b) && |Free(b.m)| > 0
    ensures var c, v := Accepted(b, fd), Vacant(b.m);
            && v < MAX_TCP == |c.m| && c.m[v].used && c.m[v].fd == fd
            && ConnFds(c.m) == ConnFds(b.m) + {fd} && |Free(c.m)| == |Free(b.m)| - 1
  {
    var v, c := Vacant(b.m), Accepted(b, fd);
    assert Free(b.m) != {};
    var k :| k in Free(b.m);
    assert !b.m[k].used;
    SlotFacts(b, 0);
    hide Right;
    FdsTaken(b.m, v, c.m[v]);
    assert Free(c.m) == Free(b.m) - {v};
  }

  /** A response to a live connection is written to it, all of it, if the sends take it. */
  lemma LiveIsDelivered(b: Books, c: Books, i: nat, dns: seq<byte>, sends: seq<int>)
    requires Right(b) && |b.traffic| <= IDS && i < MAX_TCP && b.m[i].used && |dns| <= 65535
    requires Delivered(b, c, IdOf(b.owner[i]), dns, sends) && Sent(sends, 2 + |dns|) == 2 + |dns|
    ensures var n := b.owner[i];
            && |c.traffic| == |b.traffic| > n
            && c.traffic[n].written == b.traffic[n].written + [|dns| / 256, |dns| % 256] + dns
            && c.writes == b.writes + [Write(n, IdOf(n), dns)]
  {
    LiveIsFirst(b, i);
    SlotFacts(b, i);
    DeliveredSize(b, c, i, dns, sends);
    hide Right, Sent, DeliveredTo;
    assert DeliveredTo(b, c, i, dns, 2 + |dns|);
    AllDelivered(b, c, i, dns);
  }

  lemma AllDelivered(b: Books, c: Books, i: nat, dns: seq<byte>)
    requires i < |b.m| && i < |b.owner| && b.owner[i] < |b.traffic| && |dns| <= 65535
    requires DeliveredTo(b, c, i, dns, 2 + |dns|)
    ensures var n := b.owner[i];
            && |c.traffic| == |b.traffic|
            && c.traffic[n].written == b.traffic[n].written + [|dns| / 256, |dns| % 256] + dns
            && c.writes == b.writes + [Write(n, b.m[i].id, dns)]
  {
    var framed, w := [(|dns| / 256) % 256, |dns| % 256] + dns, b.traffic[b.owner[i]].written;
    assert framed[..2 + |dns|] == framed;
    assert framed == [|dns| / 256, |dns| % 256] + dns;
    assert w + ([|dns| / 256, |dns| % 256] + dns) == w + [|dns| / 256, |dns| % 256] + dns;
  }
}
