/** What the FreeBSD relay knows of its UDP clients (FreeBSD/dns_tunneling.h), as values:
    the table of queries that wait for an answer, their fates, and what changes them. */
module DnsUdpBooks {
  import opened Sockets
  import opened DnsIdentifiers

  const MAX_UDP := 64
  const UDP_TTL := 30000

  datatype UdpEntry = UdpEntry(used: bool, id: nat, client: Address, deadline: nat)

  /** An answer sent to a client, with the query whose entry was found. */
  datatype Answer = Answer(query: nat, to: Address, id: nat, dns: seq<byte>)

  /** Why a query has no entry any more. It is evicted when its identifier is freed
      because the host could not be told. */
  datatype Fate = Answered | Expired | Evicted

  /** The table and its history: who owns each entry, all queries numbered, and what
      has become of those without an entry. */
  datatype Books = Books(m: seq<UdpEntry>, owner: seq<nat>, asked: seq<Query>, answered: seq<Answer>, fates: map<nat, Fate>)

  // ---------------------------------------------------------------- lookups

  predicate Matches(e: UdpEntry, id: nat) {
    e.used && e.id == id
  }

  /** The first used entry with this identifier; the length if there is none. */
  function Find(m: seq<UdpEntry>, id: nat): (i: nat)
    ensures i <= |m| && (i < |m| ==> Matches(m[i], id))
    ensures forall k :: 0 <= k < i ==> !Matches(m[k], id)
  {
    if m == [] || Matches(m[0], id) then 0 else 1 + Find(m[1..], id)
  }

  /** The first free entry; the length if there is none. */
  function Vacant(m: seq<UdpEntry>): (i: nat)
    ensures i <= |m| && (i < |m| ==> !m[i].used)
    ensures forall k :: 0 <= k < i ==> m[k].used
  {
    if m == [] || !m[0].used then 0 else 1 + Vacant(m[1..])
  }

  // ------------------------------------------------------------- what is right

  /** Every entry belongs to a query of its own and holds its client and identifier. */
  ghost predicate Entries(b: Books) {
    && |b.m| == |b.owner| == MAX_UDP
    && (forall i :: 0 <= i < MAX_UDP && b.m[i].used ==>
          && b.owner[i] < |b.asked| && b.owner[i] !in b.fates
          && b.m[i].client == b.asked[b.owner[i]].client && b.m[i].id == IdOf(b.owner[i]))
    && forall i, j :: 0 <= i < j < MAX_UDP && b.m[i].used && b.m[j].used ==> b.owner[i] != b.owner[j]
  }

  predicate EntryOf(b: Books, i: int, q: nat) {
    0 <= i < |b.m| && i < |b.owner| && b.m[i].used && b.owner[i] == q
  }

  /** Every query has an entry or a fate. */
  ghost predicate Covered(b: Books) {
    && (forall q :: q in b.fates ==> q < |b.asked|)
    && forall q: nat :: q < |b.asked| && q !in b.fates ==> exists i :: EntryOf(b, i, q)
  }

  /** Answers went to the clients that asked, one to each query whose fate it is. */
  ghost predicate Answers(b: Books) {
    && (forall a :: 0 <= a < |b.answered| ==>
          && b.answered[a].query in b.fates && b.fates[b.answered[a].query].Answered?
          && b.answered[a].query < |b.asked|
          && b.answered[a].to == b.asked[b.answered[a].query].client
          && b.answered[a].id == IdOf(b.answered[a].query))
    && (forall a, c :: 0 <= a < c < |b.answered| ==> b.answered[a].query != b.answered[c].query)
    && forall q :: q in b.fates && b.fates[q].Answered? ==> exists a :: 0 <= a < |b.answered| && b.answered[a].query == q
  }

  ghost predicate Right(b: Books) {
    Entries(b) && Covered(b) && Answers(b)
  }

  lemma Sizes(b: Books)
    requires Right(b)
    ensures |b.m| == |b.owner| == MAX_UDP
  {
  }

  // ------------------------------------------------------------------- changes

  function EnteredAt(b: Books, i: nat, query: Query, now: nat): Books
    requires i < |b.m| && i < |b.owner|
  {
    b.(m := b.m[i := UdpEntry(true, IdOf(|b.asked|), query.client, now + UDP_TTL)],
       owner := b.owner[i := |b.asked|],
       asked := b.asked + [query])
  }

  /** A query gets the first free entry, if there is one. */
  function Entered(b: Books, query: Query, now: nat): Books {
    var i := Vacant(b.m);
    if i < |b.m| && i < |b.owner| then EnteredAt(b, i, query, now) else b
  }

  function FreedAt(b: Books, i: nat, fate: Fate): Books
    requires i < |b.m| && i < |b.owner|
  {
    b.(m := b.m[i := b.m[i].(used := false)], fates := b.fates[b.owner[i] := fate])
  }

  /** The first entry with the identifier is freed. */
  function Freed(b: Books, id: nat, fate: Fate): Books {
    var i := Find(b.m, id);
    if i < |b.m| && i < |b.owner| then FreedAt(b, i, fate) else b
  }

  /** The first entry's client is answered, and the entry is freed. */
  function Replied(b: Books, id: nat, dns: seq<byte>): Books {
    var i := Find(b.m, id);
    if i < |b.m| && i < |b.owner| then
      FreedAt(b, i, Answered).(answered := b.answered + [Answer(b.owner[i], b.m[i].client, id, dns)])
    else b
  }

  predicate Due(e: UdpEntry, now: nat) {
    e.used && e.deadline != 0 && e.deadline < now
  }

  /** The first `n` entries have been looked at for expiry. */
  function Swept(b: Books, now: nat, n: nat): (r: Books)
    requires n <= |b.m| && n <= |b.owner|
    ensures |r.m| == |b.m| && r.owner == b.owner
  {
    if n == 0 then b
    else
      var r := Swept(b, now, n - 1);
      if Due(r.m[n - 1], now) then FreedAt(r, n - 1, Expired) else r
  }

  lemma EnteredIsRight(b: Books, query: Query, now: nat)
    requires Right(b)
    ensures Right(Entered(b, query, now))
  {
    var r, n := Entered(b, query, now), Vacant(b.m);
    if n < MAX_UDP {
      forall q: nat | q < |r.asked| && q !in r.fates ensures exists i :: EntryOf(r, i, q) {
        if q == |b.asked| {
          assert EntryOf(r, n, q);
        } else {
          var i :| EntryOf(b, i, q);
          assert EntryOf(r, i, q);
        }
      }
    }
  }

  lemma FreedKeepsCover(b: Books, r: Books, n: nat)
    requires Right(b) && n < MAX_UDP && b.m[n].used
    requires r.m == b.m[n := b.m[n].(used := false)] && r.owner == b.owner && r.asked == b.asked
    requires r.fates.Keys == b.fates.Keys + {b.owner[n]}
    ensures Entries(r) && Covered(r)
  {
    forall q: nat | q < |r.asked| && q !in r.fates ensures exists i :: EntryOf(r, i, q) {
      var i :| EntryOf(b, i, q);
      assert EntryOf(r, i, q);
    }
  }

  lemma FreedIsRight(b: Books, n: nat, fate: Fate)
    requires Right(b) && n < MAX_UDP && b.m[n].used && !fate.Answered?
    ensures Right(FreedAt(b, n, fate))
  {
    FreedKeepsCover(b, FreedAt(b, n, fate), n);
  }

  lemma RepliedIsRight(b: Books, id: nat, dns: seq<byte>)
    requires Right(b)
    ensures Right(Replied(b, id, dns))
  {
    hide Answers;
    var n := Find(b.m, id);
    if n < MAX_UDP {
      var r := Replied(b, id, dns);
      FreedKeepsCover(b, r, n);
      AnsweredNext(b, n, b.m[n].client, id, dns);
      assert Answers(r);
    }
  }

  lemma AnsweredNext(b: Books, n: nat, to: Address, id: nat, dns: seq<byte>)
    requires Right(b) && n < MAX_UDP && b.m[n].used && to == b.m[n].client && id == b.m[n].id
    ensures Answers(FreedAt(b, n, Answered).(answered := b.answered + [Answer(b.owner[n], to, id, dns)]))
  {
    var r := b.answered + [Answer(b.owner[n], to, id, dns)];
    assert r[|b.answered|].query == b.owner[n];
    assert forall a :: 0 <= a < |b.answered| ==> r[a] == b.answered[a];
  }

  lemma {:induction false} SweptIsRight(b: Books, now: nat, n: nat)
    requires Right(b) && n <= MAX_UDP
    ensures Right(Swept(b, now, n))
  {
    Sizes(b);
    if n > 0 {
      hide Right;
      SweptIsRight(b, now, n - 1);
      if Due(Swept(b, now, n - 1).m[n - 1], now) {
        FreedIsRight(Swept(b, now, n - 1), n - 1, Expired);
      }
    }
  }

  /** Sweeping frees exactly the used entries whose deadline is set and has passed, */
  lemma {:induction false} SweptEntries(b: Books, now: nat, n: nat)
    requires n <= |b.m| == |b.owner|
    ensures forall i :: 0 <= i < |b.m| ==>
              Swept(b, now, n).m[i] ==
              if i < n && b.m[i].used && b.m[i].deadline != 0 && b.m[i].deadline < now then b.m[i].(used := false) else b.m[i]
  {
    if n > 0 {
      SweptEntries(b, now, n - 1);
    }
  }

  /** so one made at `t` lives for thirty seconds and not longer, */
  lemma EntryLives(b: Books, query: Query, t: nat, now: nat)
    requires Right(b) && Vacant(b.m) < MAX_UDP
    ensures var i, s := Vacant(b.m), Swept(Entered(b, query, t), now, MAX_UDP);
            && s.m[i].client == query.client && s.m[i].id == (|b.asked| + 1) % 0x1_0000_0000
            && (s.m[i].used <==> now <= t + 30000)
  {
    SweptEntries(Entered(b, query, t), now, MAX_UDP);
  }

  /** and only expires. */
  lemma {:induction false} SweptOnlyExpires(b: Books, now: nat, n: nat)
    requires Right(b) && n <= MAX_UDP
    ensures Swept(b, now, n).asked == b.asked && Swept(b, now, n).answered == b.answered
    ensures forall q :: q in b.fates ==> q in Swept(b, now, n).fates
    ensures forall q :: q in Swept(b, now, n).fates ==>
              if q in b.fates then Swept(b, now, n).fates[q] == b.fates[q] else Swept(b, now, n).fates[q].Expired?
  {
    if n > 0 {
      SweptOnlyExpires(b, now, n - 1);
      SweptIsRight(b, now, n - 1);
      var r := Swept(b, now, n - 1);
      if Due(r.m[n - 1], now) {
        assert r.owner[n - 1] !in r.fates;
        assert Swept(b, now, n) == FreedAt(r, n - 1, Expired);
      }
    }
  }

  // ------------------------------------------------------------------- over runs

  /** Nothing in the history is taken back, and every entry stays where it is and as it
      is until its query has a fate. */
  ghost predicate Grows(b: Books, c: Books) {
    && b.asked <= c.asked && b.answered <= c.answered
    && (forall q :: q in b.fates ==> q in c.fates && c.fates[q] == b.fates[q])
    && |b.m| == |c.m| && |b.owner| == |c.owner|
    && forall i :: 0 <= i < |b.m| && i < |b.owner| && b.m[i].used && b.owner[i] !in c.fates ==>
         c.m[i] == b.m[i] && c.owner[i] == b.owner[i]
  }

  lemma GrowsOn(b: Books, c: Books, d: Books)
    requires Grows(b, c) && Grows(c, d)
    ensures Grows(b, d)
  {
  }

  lemma StaysGrown(b: Books)
    ensures Grows(b, b)
  {
  }

  lemma EnteredGrows(b: Books, query: Query, now: nat)
    requires Right(b)
    ensures Grows(b, Entered(b, query, now))
  {
  }

  lemma FreedGrows(b: Books, n: nat, fate: Fate)
    requires Right(b) && n < MAX_UDP && b.m[n].used
    ensures Grows(b, FreedAt(b, n, fate))
  {
  }

  lemma RepliedGrows(b: Books, id: nat, dns: seq<byte>)
    requires Right(b)
    ensures Grows(b, Replied(b, id, dns))
  {
  }

  lemma {:induction false} SweptGrows(b: Books, now: nat, n: nat)
    requires Right(b) && n <= MAX_UDP
    ensures Grows(b, Swept(b, now, n))
  {
    hide Grows, Covered, Answers;
    StaysGrown(b);
    if n > 0 {
      SweptGrows(b, now, n - 1);
      SweptIsRight(b, now, n - 1);
      var r := Swept(b, now, n - 1);
      if Due(r.m[n - 1], now) {
        FreedGrows(r, n - 1, Expired);
        GrowsOn(b, r, FreedAt(r, n - 1, Expired));
      }
    }
  }

  // --------------------------------------------------------------- what the host is told

  function TellOf(number: nat, query: Query): Tunneled {
    Tunneled(IPPROTO_UDP, IdOf(number), query.payload)
  }

  predicate TellsOf(m: Tunneled, asked: seq<Query>, q: nat) {
    q < |asked| && m == TellOf(q, asked[q])
  }

  /** Every UDP message to the host is a query under its own identifier. */
  ghost predicate Told(told: seq<Tunneled>, asked: seq<Query>) {
    forall j :: 0 <= j < |told| && told[j].protocol == IPPROTO_UDP ==> exists q: nat :: TellsOf(told[j], asked, q)
  }

  predicate Names(told: seq<Tunneled>, id: nat, j: int) {
    0 <= j < |told| && told[j].protocol == IPPROTO_UDP && told[j].id == id
  }

  /** As long as identifiers have not come back, the host was not told of an evicted query. */
  ghost predicate EvictedUntold(told: seq<Tunneled>, b: Books) {
    |b.asked| <= IDS ==> forall q, j :: q in b.fates && b.fates[q].Evicted? ==> !Names(told, IdOf(q), j)
  }

  /** Messages of the other protocol do not matter. */
  lemma OthersTold(told: seq<Tunneled>, told': seq<Tunneled>, b: Books)
    requires Told(told, b.asked) && EvictedUntold(told, b) && MoreOf(IPPROTO_TCP, told, told')
    ensures Told(told', b.asked) && EvictedUntold(told', b)
  {
    forall j | 0 <= j < |told'| && told'[j].protocol == IPPROTO_UDP ensures exists q: nat :: TellsOf(told'[j], b.asked, q) {
      assert told'[j] == told[j];
    }
    forall q, j | q in b.fates && b.fates[q].Evicted? && |b.asked| <= IDS ensures !Names(told', IdOf(q), j) {
      assert !Names(told, IdOf(q), j);
    }
  }

  lemma ToldOfMore(told: seq<Tunneled>, asked: seq<Query>, query: Query)
    requires Told(told, asked)
    ensures Told(told, asked + [query])
  {
    forall j | 0 <= j < |told| && told[j].protocol == IPPROTO_UDP
      ensures exists q: nat :: TellsOf(told[j], asked + [query], q)
    {
      var q: nat :| TellsOf(told[j], asked, q);
      assert TellsOf(told[j], asked + [query], q);
    }
  }

  /** No message names a query that is yet to come. */
  lemma NewIsUntold(told: seq<Tunneled>, asked: seq<Query>, j: int)
    requires Told(told, asked) && |asked| < IDS
    ensures !Names(told, IdOf(|asked|), j)
  {
    if Names(told, IdOf(|asked|), j) {
      var q: nat :| TellsOf(told[j], asked, q);
      IdsAreDistinct(q, |asked|, IDS);
      assert false;
    }
  }

  lemma RepliedUntold(told: seq<Tunneled>, b: Books, id: nat, dns: seq<byte>)
    requires EvictedUntold(told, b)
    ensures EvictedUntold(told, Replied(b, id, dns)) && Replied(b, id, dns).asked == b.asked
  {
  }

  lemma EnteredUntold(told: seq<Tunneled>, b: Books, query: Query, now: nat)
    requires Told(told, b.asked) && EvictedUntold(told, b)
    ensures Told(told, Entered(b, query, now).asked) && EvictedUntold(told, Entered(b, query, now))
  {
    ToldOfMore(told, b.asked, query);
  }

  /** The query just numbered is told. */
  lemma TellIsTold(told: seq<Tunneled>, b: Books)
    requires Right(b) && b.asked != [] && Told(told, b.asked) && EvictedUntold(told, b) && |b.asked| - 1 !in b.fates
    ensures var n := |b.asked| - 1; var all := told + [TellOf(n, b.asked[n])];
            Told(all, b.asked) && EvictedUntold(all, b)
  {
    var n := |b.asked| - 1;
    var all := told + [TellOf(n, b.asked[n])];
    forall j | 0 <= j < |all| && all[j].protocol == IPPROTO_UDP ensures exists q: nat :: TellsOf(all[j], b.asked, q) {
      if j < |told| {
        assert all[j] == told[j];
      } else {
        assert TellsOf(all[j], b.asked, n);
      }
    }
    forall q, j | q in b.fates && b.fates[q].Evicted? && |b.asked| <= IDS ensures !Names(all, IdOf(q), j) {
      assert !Names(told, IdOf(q), j);
      if IdOf(q) == IdOf(n) {
        IdsAreDistinct(q, n, |b.asked|);
        assert false;
      }
    }
  }

  /** The query just entered is evicted, since the host could not be told. */
  lemma EvictedIsRight(b: Books, query: Query, now: nat)
    requires Right(b)
    ensures var e := Entered(b, query, now); var r := Freed(e, IdOf(|b.asked|), Evicted);
            Right(r) && Grows(e, r)
  {
    var e := Entered(b, query, now);
    var k := Find(e.m, IdOf(|b.asked|));
    EnteredIsRight(b, query, now);
    if k < MAX_UDP {
      FreedIsRight(e, k, Evicted);
      FreedGrows(e, k, Evicted);
    }
  }

  lemma EvictedIsUntold(told: seq<Tunneled>, b: Books, query: Query, now: nat)
    requires Right(b) && Vacant(b.m) < MAX_UDP && Told(told, b.asked) && EvictedUntold(told, b)
    ensures var r := Freed(Entered(b, query, now), IdOf(|b.asked|), Evicted);
            Told(told, r.asked) && EvictedUntold(told, r)
  {
    var e, n := Entered(b, query, now), |b.asked|;
    var r := Freed(e, IdOf(n), Evicted);
    ToldOfMore(told, b.asked, query);
    assert r.asked == b.asked + [query];
    forall q, j | q in r.fates && r.fates[q].Evicted? && |r.asked| <= IDS ensures !Names(told, IdOf(q), j) {
      if q in b.fates && b.fates[q].Evicted? {
        assert !Names(told, IdOf(q), j);
      } else {
        EvictedIsNew(b, query, now, q);
        NewIsUntold(told, b.asked, j);
      }
    }
  }

  lemma EvictedIsNew(b: Books, query: Query, now: nat, q: nat)
    requires Right(b) && Vacant(b.m) < MAX_UDP && |b.asked| < IDS
    requires var r := Freed(Entered(b, query, now), IdOf(|b.asked|), Evicted);
             q in r.fates && r.fates[q].Evicted? && !(q in b.fates && b.fates[q].Evicted?)
    ensures q == |b.asked|
  {
    var e := Entered(b, query, now);
    EnteredIsRight(b, query, now);
    var k := Find(e.m, IdOf(|b.asked|));
    assert q == e.owner[k] && Matches(e.m[k], IdOf(|b.asked|));
    IdsAreDistinct(q, |b.asked|, |e.asked|);
  }

  // ------------------------------------------------------------ what an answer does

  /** The first live entry with an identifier. */
  predicate FirstWith(m: seq<UdpEntry>, id: nat, i: int) {
    && 0 <= i < |m| && m[i].used && m[i].id == id
    && forall k :: 0 <= k < i ==> !(m[k].used && m[k].id == id)
  }

  /** The query that has the first entry is answered, at its own address and with these
      bytes, and its entry is free; everything else stays. With no such entry all stays. */
  ghost predicate Responded(b: Books, c: Books, id: nat, dns: seq<byte>) {
    && c.asked == b.asked && c.owner == b.owner
    && (forall i :: FirstWith(b.m, id, i) && i < |b.owner| && b.owner[i] < |b.asked| ==>
          && c.answered == b.answered + [Answer(b.owner[i], b.asked[b.owner[i]].client, id, dns)]
          && c.fates == b.fates[b.owner[i] := Answered]
          && |c.m| == |b.m| && !c.m[i].used && forall k :: 0 <= k < |b.m| && k != i ==> c.m[k] == b.m[k])
    && ((forall i :: 0 <= i < |b.m| ==> !(b.m[i].used && b.m[i].id == id)) ==> c == b)
  }

  lemma RepliedResponds(b: Books, id: nat, dns: seq<byte>)
    requires Right(b)
    ensures Responded(b, Replied(b, id, dns), id, dns)
  {
    var n := Find(b.m, id);
    forall i | FirstWith(b.m, id, i) ensures i == n {
      assert n < |b.m| ==> Matches(b.m[n], id);
    }
  }

  /** In a right table the entry of a query without a fate is the first with its
      identifier, as long as identifiers have not come back. */
  lemma LiveIsFirst(b: Books, q: nat)
    requires Right(b) && |b.asked| <= IDS && q < |b.asked| && q !in b.fates
    ensures exists i :: FirstWith(b.m, IdOf(q), i) && b.owner[i] == q
  {
    var i :| EntryOf(b, i, q);
    forall k | 0 <= k < i ensures !(b.m[k].used && b.m[k].id == IdOf(q)) {
      if b.m[k].used && b.m[k].id == IdOf(q) {
        IdsAreDistinct(b.owner[k], q, |b.asked|);
      }
    }
    assert FirstWith(b.m, IdOf(q), i);
  }

  /** So a response to a query that waits for one answers it: once, with its bytes, at the
      address it came from. */
  lemma WaitingIsAnswered(b: Books, c: Books, q: nat, dns: seq<byte>)
    requires Right(b) && |b.asked| <= IDS && q < |b.asked| && q !in b.fates
    requires Responded(b, c, IdOf(q), dns)
    ensures c.answered == b.answered + [Answer(q, b.asked[q].client, IdOf(q), dns)]
    ensures q in c.fates && c.fates[q].Answered?
  {
    LiveIsFirst(b, q);
    var i :| FirstWith(b.m, IdOf(q), i) && b.owner[i] == q;
  }

  // ------------------------------------------------------------ all waiting datagrams

  /** A query that gets a place. */
  predicate Placed(b: Books, query: Query) {
    query.payload != [] && Vacant(b.m) < |b.m|
  }

  /** One datagram: it is entered and the host is told; or it is empty or has no place;
      or the host does not take it, and its identifier is freed. */
  function AfterQuery(b: Books, query: Query, now: nat, taken: bool): Books {
    if !Placed(b, query) then b
    else if taken then Entered(b, query, now)
    else Freed(Entered(b, query, now), IdOf(|b.asked|), Evicted)
  }

  /** The table, the messages the host has taken, and what it will take. */
  datatype Relay = Relay(b: Books, told: seq<Tunneled>, takes: seq<bool>)

  function OneRelayed(r: Relay, query: Query, now: nat): Relay {
    if !Placed(r.b, query) then r
    else
      var taken := NextTaken(r.takes);
      Relay(AfterQuery(r.b, query, now, taken),
            r.told + if taken then [TellOf(|r.b.asked|, query)] else [], Rest(r.takes))
  }

  /** Datagrams are entered and told in order, up to one that is empty, has no place or is not taken. */
  function Relayed(r: Relay, queries: seq<Query>, now: nat): Relay
    decreases |queries|
  {
    if queries == [] then r
    else
      var s := OneRelayed(r, queries[0], now);
      if Placed(r.b, queries[0]) && NextTaken(r.takes) then Relayed(s, queries[1..], now) else s
  }

  /** How many are told. */
  function Count(r: Relay, queries: seq<Query>, now: nat): (n: nat)
    ensures n <= |queries|
    decreases |queries|
  {
    if queries == [] || !Placed(r.b, queries[0]) || !NextTaken(r.takes) then 0
    else 1 + Count(OneRelayed(r, queries[0], now), queries[1..], now)
  }

  /** The first `n` datagrams have bytes and the script takes them; the next is empty, finds
      the table full or is not taken. */
  ghost predicate StopsAt(r: Relay, s: Relay, queries: seq<Query>, n: nat) {
    && n <= |queries| && n <= |r.takes|
    && (forall j :: 0 <= j < n ==> queries[j].payload != [] && r.takes[j])
    && (n < |queries| ==> queries[n].payload == [] || (forall i :: 0 <= i < |s.b.m| ==> s.b.m[i].used)
                          || n == |r.takes| || !r.takes[n])
  }

  /** The host is told of them with their own bytes and the next identifiers, in order. */
  ghost predicate ToldInTurn(r: Relay, s: Relay, queries: seq<Query>, n: nat)
    requires n <= |queries|
  {
    && |s.told| == |r.told| + n && s.told[..|r.told|] == r.told
    && forall j :: 0 <= j < n ==>
         s.told[|r.told| + j] == Tunneled(17, (|r.b.asked| + j + 1) % 0x1_0000_0000, queries[j].payload)
  }

  lemma {:induction false} RelayTells(r: Relay, queries: seq<Query>, now: nat)
    requires |r.b.m| == |r.b.owner|
    ensures var n, s := Count(r, queries, now), Relayed(r, queries, now);
            StopsAt(r, s, queries, n) && ToldInTurn(r, s, queries, n)
    decreases |queries|
  {
    if queries != [] {
      var q := queries[0];
      var s := OneRelayed(r, q, now);
      if Placed(r.b, q) && NextTaken(r.takes) {
        EnteredAsks(r.b, q, now);
        RelayTells(s, queries[1..], now);
        RelayTellsFirst(r, s, Relayed(s, queries[1..], now), queries, Count(s, queries[1..], now));
      }
    }
  }

  lemma EnteredAsks(b: Books, query: Query, now: nat)
    requires |b.m| == |b.owner| && Vacant(b.m) < |b.m|
    ensures var c := Entered(b, query, now); |c.asked| == |b.asked| + 1 && |c.m| == |c.owner|
  {
  }

  lemma RelayTellsFirst(r: Relay, s: Relay, t: Relay, queries: seq<Query>, n: nat)
    requires queries != [] && queries[0].payload != [] && NextTaken(r.takes) && s.takes == r.takes[1..]
    requires s.told == r.told + [TellOf(|r.b.asked|, queries[0])] && |s.b.asked| == |r.b.asked| + 1
    requires n < |queries| && StopsAt(s, t, queries[1..], n) && ToldInTurn(s, t, queries[1..], n)
    ensures StopsAt(r, t, queries, n + 1) && ToldInTurn(r, t, queries, n + 1)
  {
    assert forall j :: 0 < j <= n ==> queries[j] == queries[1..][j - 1] && r.takes[j] == s.takes[j - 1];
    assert t.told[..|r.told|] == t.told[..|s.told|][..|r.told|] == r.told;
    assert t.told[|r.told|] == t.told[..|s.told|][|r.told|];
    forall j | 0 <= j < n + 1
      ensures t.told[|r.told| + j] == Tunneled(17, (|r.b.asked| + j + 1) % 0x1_0000_0000, queries[j].payload)
    {
      if j > 0 {
        assert t.told[|s.told| + (j - 1)] == Tunneled(17, (|s.b.asked| + (j - 1) + 1) % 0x1_0000_0000, queries[1..][j - 1].payload);
      }
    }
  }

  /** One datagram keeps everything right. */
  lemma OneKeepsRight(r: Relay, query: Query, now: nat)
    requires Right(r.b) && Told(r.told, r.b.asked) && EvictedUntold(r.told, r.b)
    ensures var s := OneRelayed(r, query, now);
            && Right(s.b) && Told(s.told, s.b.asked) && EvictedUntold(s.told, s.b) && Grows(r.b, s.b)
            && s.b.answered == r.b.answered && MoreOf(IPPROTO_UDP, r.told, s.told)
  {
    hide Right, Told, EvictedUntold, Grows, Entered, Freed;
    var e := Entered(r.b, query, now);
    StaysGrown(r.b);
    assert r.told + [] == r.told;
    if Placed(r.b, query) {
      EnteredLast(r.b, query, now);
      EnteredIsRight(r.b, query, now);
      EnteredGrows(r.b, query, now);
      EnteredUntold(r.told, r.b, query, now);
      if NextTaken(r.takes) {
        TellIsTold(r.told, e);
      } else {
        EvictedIsRight(r.b, query, now);
        EvictedIsUntold(r.told, r.b, query, now);
        GrowsOn(r.b, e, OneRelayed(r, query, now).b);
      }
    }
  }

  lemma EnteredLast(b: Books, query: Query, now: nat)
    requires Right(b) && Vacant(b.m) < |b.m|
    ensures |b.m| == MAX_UDP
    ensures var e := Entered(b, query, now);
            && e.asked == b.asked + [query] && e.answered == b.answered && |b.asked| !in e.fates
            && Freed(e, IdOf(|b.asked|), Evicted).answered == b.answered
  {
  }

  /** Datagrams do not decide the fate of a query that waited already. */
  lemma OneLeavesWaiting(r: Relay, query: Query, now: nat, q: nat)
    requires Right(r.b) && |OneRelayed(r, query, now).b.asked| <= IDS && q < |r.b.asked| && q !in r.b.fates
    ensures q !in OneRelayed(r, query, now).b.fates
  {
    if q in OneRelayed(r, query, now).b.fates {
      EvictedIsNew(r.b, query, now, q);
    }
  }

  lemma {:induction false} RelayKeepsRight(r: Relay, queries: seq<Query>, now: nat)
    requires Right(r.b) && Told(r.told, r.b.asked) && EvictedUntold(r.told, r.b)
    ensures var s := Relayed(r, queries, now);
            && Right(s.b) && Told(s.told, s.b.asked) && EvictedUntold(s.told, s.b) && Grows(r.b, s.b)
    decreases |queries|
  {
    hide Right, Told, EvictedUntold, Grows, OneRelayed, MoreOf;
    StaysGrown(r.b);
    if queries != [] {
      var s := OneRelayed(r, queries[0], now);
      OneKeepsRight(r, queries[0], now);
      if Placed(r.b, queries[0]) && NextTaken(r.takes) {
        RelayKeepsRight(s, queries[1..], now);
        GrowsOn(r.b, s.b, Relayed(s, queries[1..], now).b);
      }
    }
  }

  lemma {:induction false} RelayLeavesWaiting(r: Relay, queries: seq<Query>, now: nat, q: nat)
    requires Right(r.b) && Told(r.told, r.b.asked) && EvictedUntold(r.told, r.b)
    requires |Relayed(r, queries, now).b.asked| <= IDS && q < |r.b.asked| && q !in r.b.fates
    ensures q !in Relayed(r, queries, now).b.fates && Relayed(r, queries, now).b.answered == r.b.answered
    decreases |queries|
  {
    if queries != [] {
      hide Right, Told, EvictedUntold, OneRelayed, MoreOf;
      var s := OneRelayed(r, queries[0], now);
      OneKeepsRight(r, queries[0], now);
      if Placed(r.b, queries[0]) && NextTaken(r.takes) {
        RelayKeepsRight(s, queries[1..], now);
        OneLeavesWaiting(r, queries[0], now, q);
        RelayLeavesWaiting(s, queries[1..], now, q);
      } else {
        OneLeavesWaiting(r, queries[0], now, q);
      }
    }
  }

  lemma MoreOn(protocol: byte, a: seq<Tunneled>, b: seq<Tunneled>, c: seq<Tunneled>)
    requires MoreOf(protocol, a, b) && MoreOf(protocol, b, c)
    ensures MoreOf(protocol, a, c)
  {
  }

  lemma StartsRight(r: Relay, queries: seq<Query>, now: nat)
    requires Right(r.b)
    ensures Grows(r.b, r.b) && MoreOf(IPPROTO_UDP, r.told, r.told)
    ensures var n, s := Count(r, queries, now), Relayed(r, queries, now);
            StopsAt(r, s, queries, n) && ToldInTurn(r, s, queries, n)
  {
    RelayTells(r, queries, now);
  }

  // ---------------------------------------------------------------- what follows from it

  /** As long as identifiers have not come back, an answer went to the client whose
      query has its identifier, and there is only one. */
  lemma AnswerReachesItsClient(b: Books, a: nat, query: nat)
    requires Right(b) && |b.asked| <= IDS
    requires a < |b.answered| && query < |b.asked| && b.answered[a].id == IdOf(query)
    ensures b.answered[a].query == query && b.answered[a].to == b.asked[query].client
    ensures forall c :: 0 <= c < |b.answered| && b.answered[c].id == IdOf(query) ==> c == a
  {
    IdsAreDistinct(b.answered[a].query, query, |b.asked|);
    forall c | 0 <= c < |b.answered| && b.answered[c].id == IdOf(query) ensures c == a {
      IdsAreDistinct(b.answered[c].query, query, |b.asked|);
    }
  }

  lemma LiveIdsDistinct(b: Books, i: nat, j: nat)
    requires Right(b) && |b.asked| <= IDS
    requires i < j < MAX_UDP && b.m[i].used && b.m[j].used
    ensures b.m[i].id != b.m[j].id
  {
    if b.m[i].id == b.m[j].id {
      IdsAreDistinct(b.owner[i], b.owner[j], |b.asked|);
      assert false;
    }
  }

  /** Every query the host was told of and that is neither answered nor expired has its
      entry: the one that its identifier finds. */
  lemma ToldHasEntry(told: seq<Tunneled>, b: Books, q: nat, j: int)
    requires Right(b) && EvictedUntold(told, b) && |b.asked| <= IDS && q < |b.asked| && Names(told, IdOf(q), j)
    requires forall a :: 0 <= a < |b.answered| ==> b.answered[a].query != q
    requires q in b.fates ==> !b.fates[q].Expired?
    ensures EntryOf(b, Find(b.m, IdOf(q)), q)
  {
    assert q !in b.fates;
    var i :| EntryOf(b, i, q);
    var k := Find(b.m, IdOf(q));
    assert Matches(b.m[i], IdOf(q));
    IdsAreDistinct(b.owner[k], q, |b.asked|);
  }
}
