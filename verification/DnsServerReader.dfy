/** The Linux relay's TCP reader (DnsServer::HandleNewTcpData in
    src/linux/init/DnsServer.cpp): a vector resized to the current request and a
    16-bit offset into it, advanced by one recv per readiness event. */
module DnsServerReader {
  import opened Sockets
  import opened DnsFraming
  import opened DnsTcpReassembler

  /** What the 16-bit offset and the zero-sized recv leave room for. */
  predicate UsableLength(n: nat) {
    1 <= n <= 65533
  }

  ghost predicate AllUsable(fs: seq<seq<byte>>) {
    forall i :: 0 <= i < |fs| ==> UsableLength(|fs[i]|)
  }

  /** The frames before the first that is not usable. */
  function UsablePrefix(fs: seq<seq<byte>>): seq<seq<byte>> {
    if fs == [] || !UsableLength(|fs[0]|) then [] else [fs[0]] + UsablePrefix(fs[1..])
  }

  /** This reader tunnels a request with its length prefix. */
  function Wholes(fs: seq<seq<byte>>): seq<seq<byte>>
    requires Encodable(fs)
  {
    seq(|fs|, i requires 0 <= i < |fs| => Framed(fs[i]))
  }

  /** The stream has reached a length the reader cannot get past. */
  ghost predicate Spoiled(s: seq<byte>) {
    !AllUsable(Frames(s)) || (|Tail(s)| >= 2 && !UsableLength(Length(Tail(s))))
  }

  lemma {:induction false} UsablePrefixFacts(fs: seq<seq<byte>>)
    ensures UsablePrefix(fs) <= fs
    ensures AllUsable(UsablePrefix(fs))
    ensures UsablePrefix(fs) == fs <==> AllUsable(fs)
  {
    if fs != [] && UsableLength(|fs[0]|) {
      UsablePrefixFacts(fs[1..]);
      assert fs == [fs[0]] + fs[1..];
      if AllUsable(fs[1..]) {
        assert forall i :: 1 <= i < |fs| ==> fs[i] == fs[1..][i - 1];
      }
    }
  }

  lemma {:induction false} UsablePrefixAppend(fs: seq<seq<byte>>, gs: seq<seq<byte>>)
    ensures UsablePrefix(fs + gs) == if AllUsable(fs) then fs + UsablePrefix(gs) else UsablePrefix(fs)
  {
    if fs == [] {
      assert fs + gs == gs;
    } else {
      assert (fs + gs)[1..] == fs[1..] + gs;
      UsablePrefixAppend(fs[1..], gs);
      if UsableLength(|fs[0]|) {
        assert AllUsable(fs) <==> AllUsable(fs[1..]) by {
          assert forall i :: 1 <= i < |fs| ==> fs[i] == fs[1..][i - 1];
        }
        assert [fs[0]] + (fs[1..] + UsablePrefix(gs)) == fs + UsablePrefix(gs);
      }
    }
  }

  /** Nothing that arrives later adds to what can be tunneled. */
  lemma SpoiledForGood(a: seq<byte>, b: seq<byte>)
    requires Spoiled(a)
    ensures Spoiled(a + b) && UsablePrefix(Frames(a + b)) == UsablePrefix(Frames(a))
  {
    var fs, t := Frames(a), Tail(a);
    ParseAppend(a, b);
    ParseCovers(a);
    var gs := Frames(t + b);
    UsablePrefixAppend(fs, gs);
    if AllUsable(fs) {
      assert Length(t + b) == Length(t);
      UsablePrefixFacts(fs);
      if Complete(t + b) {
        assert !UsableLength(|gs[0]|);
        assert Frames(a + b)[|fs|] == gs[0];
      }
    } else {
      var i :| 0 <= i < |fs| && !UsableLength(|fs[i]|);
      assert Frames(a + b)[i] == fs[i];
    }
  }

  // ------------------------------------------------------------ one recv

  /** The buffer agrees with the unfinished frame `t`. */
  ghost predicate Tracking(request: seq<byte>, offset: nat, t: seq<byte>) {
    && offset == |t|
    && |request| == (if |t| < 2 then 2 else 2 + Length(t))
    && |t| < |request|
    && request[..|t|] == t
  }

  /** Either the next recv asks for nothing, or the offset can never meet the size. */
  ghost predicate Stuck(request: seq<byte>, offset: nat) {
    offset <= |request| && (|request| >= 0x1_0000 || offset == |request| == 2)
  }

  ghost predicate Follows(request: seq<byte>, offset: nat, received: seq<byte>) {
    && offset < 0x1_0000
    && if Spoiled(received) then Stuck(request, offset) else Tracking(request, offset, Tail(received))
  }

  /** The vector after `data` is received into it at `offset`. */
  function Filled(request: seq<byte>, offset: nat, data: seq<byte>): (r: seq<byte>)
    requires offset + |data| <= |request|
    ensures |r| == |request| && r[..offset] == request[..offset]
  {
    request[..offset] + data + request[offset + |data|..]
  }

  /** No byte past the end of the frame being read was taken with it. */
  ghost predicate OneFrameAtMost(before: seq<byte>, after: seq<byte>) {
    !Spoiled(after) ==>
      || Frames(after) == Frames(before)
      || (|Frames(after)| == |Frames(before)| + 1 && Tail(after) == [])
  }

  /** No frame ends with this recv. */
  lemma StaysOpen(received: seq<byte>, data: seq<byte>)
    requires !Spoiled(received) && !Complete(Tail(received) + data)
    ensures Frames(received + data) == Frames(received)
    ensures Tail(received + data) == Tail(received) + data
    ensures Spoiled(received + data) <==>
            |Tail(received) + data| >= 2 && !UsableLength(Length(Tail(received) + data))
  {
    ParseAppend(received, data);
  }

  lemma OneWhole(t: seq<byte>)
    requires |t| >= 2 && |t| == 2 + Length(t)
    ensures Frames(t) == [t[2..]] && Tail(t) == [] && |t[2..]| < 0x1_0000 && Framed(t[2..]) == t
  {
    assert t[2 + Length(t)..] == [];
    assert t[2..2 + Length(t)] == t[2..];
    assert Frames(t) == [t[2..]] + Frames([]);
    Be16Length(t);
  }

  lemma OneUsable(f: seq<byte>)
    ensures UsablePrefix([f]) == if UsableLength(|f|) then [f] else []
  {
  }

  /** This recv ends exactly one frame. */
  lemma EndsFrame(received: seq<byte>, data: seq<byte>)
    requires !Spoiled(received)
    requires |Tail(received) + data| >= 2 && |Tail(received) + data| == 2 + Length(Tail(received) + data)
    ensures var f := (Tail(received) + data)[2..];
            && Frames(received + data) == Frames(received) + [f]
            && Framed(f) == Tail(received) + data
            && Tail(received + data) == []
            && UsablePrefix(Frames(received + data)) == Frames(received) + (if UsableLength(|f|) then [f] else [])
            && (Spoiled(received + data) <==> !UsableLength(|f|))
  {
    hide Frames, Tail, UsablePrefix, Framed;
    var t := Tail(received) + data;
    ParseAppend(received, data);
    OneWhole(t);
    UsablePrefixAppend(Frames(received), [t[2..]]);
    OneUsable(t[2..]);
    UsablePrefixFacts(Frames(received + data));
  }

  /** A request of a usable length is being filled, or the prefix is. */
  lemma PartialFill(request: seq<byte>, offset: nat, received: seq<byte>, data: seq<byte>)
    requires !Spoiled(received) && Tracking(request, offset, Tail(received)) && data != []
    requires offset + |data| <= |request|
    ensures Filled(request, offset, data)[..offset + |data|] == Tail(received) + data
    ensures offset + |data| < 0x1_0000
    ensures offset + |data| < |request| ==>
              !Spoiled(received + data) && Follows(Filled(request, offset, data), offset + |data|, received + data)
              && Frames(received + data) == Frames(received)
  {
    var t := Tail(received);
    var t' := t + data;
    if |t| >= 2 {
      assert Length(t') == Length(t);
    }
    if |t'| < |request| {
      assert !Complete(t');
      StaysOpen(received, data);
    }
  }

  lemma LengthRead(request: seq<byte>, offset: nat, received: seq<byte>, data: seq<byte>, zeros: seq<byte>)
    requires !Spoiled(received) && Tracking(request, offset, Tail(received)) && data != []
    requires offset + |data| == |request| == 2
    requires |zeros| == Length(Filled(request, offset, data))
    ensures Follows(Filled(request, offset, data) + zeros, 2, received + data)
    ensures UsablePrefix(Frames(received + data)) == UsablePrefix(Frames(received))
    ensures OneFrameAtMost(received, received + data)
  {
    PartialFill(request, offset, received, data);
    var t' := Tail(received) + data;
    assert Filled(request, offset, data) == t';
    UsablePrefixFacts(Frames(received));
    if Length(t') == 0 {
      EndsFrame(received, data);
    } else {
      StaysOpen(received, data);
    }
  }

  lemma RequestRead(request: seq<byte>, offset: nat, received: seq<byte>, data: seq<byte>)
    requires !Spoiled(received) && Tracking(request, offset, Tail(received)) && data != []
    requires offset + |data| == |request| > 2
    ensures var f := Filled(request, offset, data)[2..];
            && Frames(received + data) == Frames(received) + [f]
            && UsablePrefix(Frames(received + data)) == UsablePrefix(Frames(received)) + [f]
            && |f| < 0x1_0000 && Framed(f) == Filled(request, offset, data)
            && Tail(received + data) == []
            && !Spoiled(received + data)
  {
    PartialFill(request, offset, received, data);
    var t := Tail(received);
    assert Filled(request, offset, data) == t + data;
    assert Length(t + data) == Length(t);
    UsablePrefixFacts(Frames(received));
    EndsFrame(received, data);
  }

  /** All three ways the code after recv can go. */
  lemma AfterRecv(request: seq<byte>, offset: nat, received: seq<byte>, data: seq<byte>)
    requires Follows(request, offset, received) && data != [] && offset + |data| <= |request|
    ensures !Spoiled(received) ==> offset + |data| < 0x1_0000
    ensures var q, o, after := Filled(request, offset, data), (offset + |data|) % 0x1_0000, received + data;
            if o != |q| then
              Follows(q, o, after) && UsablePrefix(Frames(after)) == UsablePrefix(Frames(received)) && OneFrameAtMost(received, after)
            else if |q| == 2 then
              && UsablePrefix(Frames(after)) == UsablePrefix(Frames(received)) && OneFrameAtMost(received, after)
              && Follows(q + seq(Length(q), _ => 0), 2, after)
            else
              && |q| > 2 && |q[2..]| < 0x1_0000 && Framed(q[2..]) == q
              && UsablePrefix(Frames(after)) == UsablePrefix(Frames(received)) + [q[2..]]
              && OneFrameAtMost(received, after)
              && !Spoiled(after) && Tail(after) == []
  {
    if Spoiled(received) {
      SpoiledForGood(received, data);
    } else {
      PartialFill(request, offset, received, data);
      if offset + |data| == |request| {
        if |request| == 2 {
          LengthRead(request, offset, received, data, seq(Length(Filled(request, offset, data)), _ => 0));
        } else {
          RequestRead(request, offset, received, data);
        }
      }
    }
  }

  class TcpConnectionContext {
    const connectionId: nat
    /** uint16_t in the source: every addition is reduced modulo 2^16. */
    var currentRequestOffset: nat
    var currentDnsRequest: seq<byte>
    /** Whether the server still holds this context. */
    var tracked: bool

    ghost var received: seq<byte>
    ghost var tunneled: seq<seq<byte>>

    ghost predicate Valid()
      reads this`currentRequestOffset, this`currentDnsRequest, this`received, this`tunneled
    {
      && Encodable(UsablePrefix(Frames(received)))
      && tunneled == Wholes(UsablePrefix(Frames(received)))
      && Follows(currentDnsRequest, currentRequestOffset, received)
    }

    constructor (id: nat)
      ensures Valid() && tracked && received == [] && connectionId == id
    {
      connectionId := id;
      currentRequestOffset := 0;
      currentDnsRequest := [0, 0];
      tracked := true;
      received, tunneled := [], [];
    }

    /** HandleNewTcpData. `tunnel` is the request handed to the host, empty when
        there is none. After any run of calls the requests tunneled are the usable
        prefix of the frames received; before a spoiling length the offset does not
        wrap and no read reaches past the end of the current frame. */
    method HandleNewTcpData(socket: Socket) returns (tunnel: seq<byte>)
      requires Valid() && tracked
      modifies this, socket
      ensures Valid()
      ensures tracked <==> old(currentRequestOffset < |currentDnsRequest|) && Finds(old(socket.script)).Some?
                           && Finds(old(socket.script)).value.Bytes?
      ensures if tracked then old(received) < received else received == old(received)
      ensures tracked ==> old(received) + Pending(old(socket.script)) == received + Pending(socket.script)
      ensures tunneled == old(tunneled) + if tunnel == [] then [] else [tunnel]
      ensures !Spoiled(old(received)) ==> old(currentRequestOffset) + (|received| - |old(received)|) < 0x1_0000
      ensures OneFrameAtMost(old(received), received)
    {
      hide Spoiled, Frames, Tail, UsablePrefix;
      tunnel := [];
      var room := |currentDnsRequest| - currentRequestOffset;
      var r := EndOfFile; // a recv of zero bytes returns zero
      if room > 0 {
        r := socket.Receive(room);
      }
      if !r.Data? {
        tracked := false;
        return;
      }
      tunnel := Take(r.data);
    }

    /** What follows a recv that returned `data`. */
    method Take(data: seq<byte>) returns (tunnel: seq<byte>)
      requires Valid() && data != [] && currentRequestOffset + |data| <= |currentDnsRequest|
      modifies this`currentRequestOffset, this`currentDnsRequest, this`received, this`tunneled
      ensures Valid()
      ensures received == old(received) + data
      ensures tunneled == old(tunneled) + if tunnel == [] then [] else [tunnel]
      ensures !Spoiled(old(received)) ==> old(currentRequestOffset) + |data| < 0x1_0000
      ensures OneFrameAtMost(old(received), received)
    {
      hide Spoiled, Frames, Tail, UsablePrefix, OneFrameAtMost;
      tunnel := [];
      AfterRecv(currentDnsRequest, currentRequestOffset, received, data);
      received := received + data;
      currentDnsRequest := Filled(currentDnsRequest, currentRequestOffset, data);
      currentRequestOffset := (currentRequestOffset + |data|) % 0x1_0000;
      if currentRequestOffset == |currentDnsRequest| {
        if |currentDnsRequest| == 2 {
          var n := currentDnsRequest[0] as int * 256 + currentDnsRequest[1] as int;
          currentDnsRequest := currentDnsRequest + seq(n, _ => 0);
        } else {
          tunnel := currentDnsRequest;
          tunneled := tunneled + [tunnel];
          currentRequestOffset := 0;
          currentDnsRequest := [0, 0];
        }
      }
    }
  }

  /** On the same bytes this reader has tunneled what the FreeBSD reader has
      forwarded, each request with its prefix kept, exactly when every frame so
      far has a usable length. */
  lemma ReadersAgree(linux: TcpConnectionContext, bsd: Connection)
    requires linux.Valid() && bsd.Valid() && linux.received == bsd.received
    ensures Encodable(bsd.forwarded)
    ensures linux.tunneled == Wholes(bsd.forwarded) <==> AllUsable(bsd.forwarded)
  {
    ParseCovers(bsd.received);
    UsablePrefixFacts(bsd.forwarded);
  }

  /** The two lengths past the bound and the empty frame are real streams. */
  lemma UnusableStream(n: nat)
    requires n < 0x1_0000 && !UsableLength(n)
    ensures var f: seq<byte> := seq(n, _ => 0);
            Frames(Framed(f)) == [f] && UsablePrefix(Frames(Framed(f))) == []
  {
    var f: seq<byte> := seq(n, _ => 0);
    ParseUnique([f], []);
    assert Encode([f]) + [] == Framed(f);
  }
}
