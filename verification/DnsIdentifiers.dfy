/** Clients of the DNS relays and the identifiers they are known by to the host. */
module DnsIdentifiers {
  import opened Sockets

  const IDS := 0x1_0000_0000
  const IPPROTO_TCP: byte := 6
  const IPPROTO_UDP: byte := 17

  datatype Address = Address(ip: nat, port: nat)
  datatype Query = Query(client: Address, payload: seq<byte>)

  /** One message handed to the host. */
  datatype Tunneled = Tunneled(protocol: byte, id: nat, payload: seq<byte>)

  /** More messages of one protocol have been handed over. */
  ghost predicate MoreOf(protocol: byte, told: seq<Tunneled>, told': seq<Tunneled>) {
    told <= told' && forall j :: |told| <= j < |told'| ==> told'[j].protocol == protocol
  }

  /** On FreeBSD queries and connections are numbered from 0; their wire identifiers
      come from a 32-bit counter incremented before use. */
  function IdOf(number: nat): nat {
    (number + 1) % IDS
  }

  /** Two numbers share an identifier exactly when the counter has gone all the way round between them. */
  lemma SameId(a: nat, b: nat)
    ensures IdOf(a) == IdOf(b) <==> (a - b) % IDS == 0
  {
  }

  lemma NextId(number: nat)
    ensures (number % IDS + 1) % IDS == IdOf(number)
  {
  }

  lemma IdsAreDistinct(a: nat, b: nat, issued: nat)
    requires a < issued <= IDS && b < issued
    ensures IdOf(a) == IdOf(b) ==> a == b
  {
    SameId(a, b);
  }

  /** One more than 2^32 and an identifier comes back. */
  lemma IdsRunOut()
    ensures IdOf(0) == IdOf(IDS)
  {
  }

  // -------------------------------------------------- what the host takes

  /** A script says of each message that will be sent whether the host takes it; past its
      end none is taken. */
  predicate NextTaken(takes: seq<bool>) {
    takes != [] && takes[0]
  }

  function Rest(takes: seq<bool>): seq<bool> {
    if takes == [] then [] else takes[1..]
  }

  /** Of `n` messages sent one after the other, up to the first that is not taken, how many are. */
  function Taken(takes: seq<bool>, n: nat): (k: nat)
    ensures k <= n
  {
    if n == 0 || !NextTaken(takes) then 0 else 1 + Taken(takes[1..], n - 1)
  }

  /** The rest of the script then. */
  function AfterSends(takes: seq<bool>, n: nat): seq<bool> {
    if n == 0 then takes else if !NextTaken(takes) then Rest(takes) else AfterSends(takes[1..], n - 1)
  }

  /** Exactly the first k are taken: the script takes each of them and not the next. */
  lemma {:induction false} TakenIsFirst(takes: seq<bool>, n: nat)
    ensures var k := Taken(takes, n);
            && k <= |takes| && (forall i :: 0 <= i < k ==> takes[i])
            && (k < n ==> k == |takes| || !takes[k])
  {
    if n > 0 && NextTaken(takes) {
      TakenIsFirst(takes[1..], n - 1);
      var k := Taken(takes[1..], n - 1);
      assert forall i :: 1 <= i < k + 1 ==> takes[i] == takes[1..][i - 1];
    }
  }

  /** Sending goes on where it has got to. */
  lemma {:induction false} TakenOn(takes: seq<bool>, a: nat, b: nat)
    ensures Taken(takes, a) == a ==> Taken(takes, a + b) == a + Taken(AfterSends(takes, a), b)
                                     && AfterSends(takes, a + b) == AfterSends(AfterSends(takes, a), b)
    ensures Taken(takes, a) < a ==> Taken(takes, a + b) == Taken(takes, a) && AfterSends(takes, a + b) == AfterSends(takes, a)
  {
    if a > 0 && NextTaken(takes) {
      TakenOn(takes[1..], a - 1, b);
    }
  }

  /** The channel to the host, with what it has taken. */
  class HostChannel {
    var takes: seq<bool>
    ghost var delivered: seq<Tunneled>

    constructor (takes: seq<bool>)
      ensures delivered == [] && this.takes == takes
    {
      this.takes := takes;
      delivered := [];
    }

    /** dns_channel_send, which may fail. */
    method Send(protocol: byte, id: nat, payload: seq<byte>) returns (ok: bool)
      modifies this
      ensures ok == NextTaken(old(takes)) && takes == Rest(old(takes))
      ensures delivered == old(delivered) + if ok then [Tunneled(protocol, id, payload)] else []
    {
      ok := takes != [] && takes[0];
      if takes != [] {
        takes := takes[1..];
      }
      if ok {
        delivered := delivered + [Tunneled(protocol, id, payload)];
      }
    }
  }
}
