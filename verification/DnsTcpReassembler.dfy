/** The FreeBSD relay's TCP reader (dns_handle_tcp_readable in
    FreeBSD/dns_tunneling.h): a fixed buffer that is filled by recv, cut into
    frames and shifted down. */
module DnsTcpReassembler {
  import opened DnsFraming
  import opened DnsIdentifiers
  import opened Sockets

  const READ_BUF := 2 + 65535

  function Labelled(id: nat, payloads: seq<seq<byte>>): seq<Tunneled> {
    seq(|payloads|, i requires 0 <= i < |payloads| => Tunneled(IPPROTO_TCP, id, payloads[i]))
  }

  /** How reading to the end of what there is ends. */
  function Ended(end: End): Outcome {
    match end
    case Open => Blocked
    case Closed => ClosedByClient
    case Broken => ClosedOnError
  }

  datatype Outcome = Blocked | ClosedByClient | ClosedOnError | ClosedOnSend | ClosedOnOverflow

  class Connection {
    const id: nat
    const readBuf: array<byte>
    var open: bool
    var readLen: nat
    var haveLength: bool
    var expectLen: nat

    /** Every byte received, and every payload the host accepted. */
    ghost var received: seq<byte>
    ghost var forwarded: seq<seq<byte>>

    ghost predicate Valid()
      reads this, readBuf
    {
      && readBuf.Length == READ_BUF
      && readLen <= READ_BUF
      && readBuf[..readLen] == Tail(received)
      && forwarded == Frames(received)
      && (haveLength <==> readLen >= 2)
      && (haveLength ==> expectLen == Length(Tail(received)))
    }

    constructor (id: nat)
      ensures Valid() && open && received == [] && this.id == id && fresh(readBuf)
    {
      this.id := id;
      readBuf := new byte[READ_BUF];
      open, readLen, haveLength, expectLen := true, 0, false, 0;
      received, forwarded := [], [];
    }

    /** A reader that still holds some bytes, as an earlier call left it. */
    constructor Holding(id: nat, held: seq<byte>, ghost received: seq<byte>)
      requires held == Tail(received)
      ensures Valid() && open && this.received == received && this.id == id && fresh(readBuf)
    {
      this.id := id;
      TailIsShort(received);
      readBuf := new byte[READ_BUF](i => if 0 <= i < |held| then held[i] else 0);
      open, readLen, haveLength := true, |held|, |held| >= 2;
      expectLen := if |held| >= 2 then Length(held) else 0;
      this.received, forwarded := received, Frames(received);
      new;
      assert readBuf[..readLen] == held;
    }

    /** dns_handle_tcp_readable. Whatever the chunking, what the host has been
        given is exactly the parse of what was received; the overflow branch is dead. */
    method HandleReadable(socket: Socket, channel: HostChannel) returns (outcome: Outcome)
      requires Valid() && open
      modifies this`open, this`readLen, this`haveLength, this`expectLen, this`received, this`forwarded, readBuf
      modifies socket, channel
      ensures old(received) <= received <= old(received) + Pending(old(socket.script))
      ensures old(forwarded) <= forwarded
      ensures channel.delivered == old(channel.delivered) + Labelled(id, forwarded[|old(forwarded)|..])
      ensures open <==> outcome.Blocked?
      ensures outcome.ClosedOnSend? || (outcome == Ended(EndOf(old(socket.script)))
                                        && received == old(received) + Pending(old(socket.script)))
      ensures if outcome.ClosedOnSend? then forwarded < Frames(received) else Valid() && readLen < READ_BUF
      ensures var n := |Frames(old(received) + Pending(old(socket.script)))| - |old(forwarded)|;
              && n >= 0 && forwarded <= Frames(old(received) + Pending(old(socket.script)))
              && |forwarded| == |old(forwarded)| + Taken(old(channel.takes), n)
              && channel.takes == AfterSends(old(channel.takes), n)
              && (outcome.ClosedOnSend? <==> Taken(old(channel.takes), n) < n)
    {
      hide Frames, Tail, Complete, Length, Labelled, Taken, AfterSends;
      ghost var all, end := received + Pending(socket.script), EndOf(socket.script);
      var more;
      more, outcome := true, Blocked;
      assert forwarded[|forwarded|..] == [];
      NoneInTurn(|forwarded|, channel.takes);
      NoneLabelled(id);
      while more
        invariant old(received) <= received
        invariant old(forwarded) <= forwarded
        invariant channel.delivered == old(channel.delivered) + Labelled(id, forwarded[|old(forwarded)|..])
        invariant more ==> Valid() && open && EndOf(socket.script) == end && received + Pending(socket.script) == all
        invariant !more ==> (open <==> outcome.Blocked?)
        invariant !more ==> if outcome.ClosedOnSend? then forwarded < Frames(received) && received <= all
                            else Valid() && outcome == Ended(end) && received == all
        invariant InTurn(|old(forwarded)|, |forwarded|, |Frames(received)|, old(channel.takes), channel.takes)
        invariant more ==> |forwarded| == |Frames(received)|
        decreases more, Work(socket.script)
      {
        ghost var before, earlier, takes := forwarded, received, channel.takes;
        TailIsShort(received);
        more, outcome := ReadOnce(socket, channel);
        LabelledGrows(id, old(forwarded), before, forwarded);
        OnInTurn(|old(forwarded)|, |before|, |forwarded|, |Frames(received)|, old(channel.takes), takes, channel.takes);
      }
      TailIsShort(received);
      ParseAppend(received, all[|received|..]);
      assert received + all[|received|..] == all;
      NoMoreInTurn(|old(forwarded)|, |forwarded|, |Frames(received)|, |Frames(all)|, old(channel.takes), channel.takes);
    }

    /** One pass of the outer loop; `more` asks for another. */
    method ReadOnce(socket: Socket, channel: HostChannel) returns (more: bool, outcome: Outcome)
      requires Valid() && open
      modifies this`open, this`readLen, this`haveLength, this`expectLen, this`received, this`forwarded, readBuf
      modifies socket, channel
      ensures old(received) <= received <= old(received) + Pending(old(socket.script))
      ensures old(forwarded) <= forwarded
      ensures channel.delivered == old(channel.delivered) + Labelled(id, forwarded[|old(forwarded)|..])
      ensures more ==> Valid() && open && Work(socket.script) < Work(old(socket.script))
      ensures more ==> received + Pending(socket.script) == old(received) + Pending(old(socket.script))
      ensures more ==> EndOf(socket.script) == EndOf(old(socket.script))
      ensures !more ==> (open <==> outcome.Blocked?)
      ensures !more && outcome.ClosedOnOverflow? ==> |Tail(received)| == READ_BUF && received == old(received)
      ensures !more && !outcome.ClosedOnOverflow? && !outcome.ClosedOnSend? ==>
                outcome == Ended(EndOf(old(socket.script))) && Pending(old(socket.script)) == [] && received == old(received)
      ensures !more ==> if outcome.ClosedOnSend? then forwarded < Frames(received) else Valid()
      ensures InTurn(|old(forwarded)|, |forwarded|, |Frames(received)|, old(channel.takes), channel.takes)
    {
      hide Frames, Tail, Complete, Length, Loaded, Labelled, Taken, AfterSends;
      NoneInTurn(|forwarded|, channel.takes);
      NoneLabelled(id);
      more, outcome := false, Blocked;
      assert forwarded[|forwarded|..] == [];
      if readLen >= READ_BUF {
        open := false;
        return false, ClosedOnOverflow;
      }
      FoundNext(socket.script);
      var r := socket.Receive(READ_BUF - readLen);
      match r {
        case WouldBlock =>
        case Interruption =>
          more := true;
        case Failure =>
          open := false;
          outcome := ClosedOnError;
        case EndOfFile =>
          open := false;
          outcome := ClosedByClient;
        case Data(data) =>
          assert received + Pending(old(socket.script)) == received + data + Pending(socket.script);
          Fill(data);
          var ok := Extract(channel);
          if ok {
            more := true;
          } else {
            outcome := ClosedOnSend;
          }
      }
    }

    /** The buffer between recv and extraction: what is not yet forwarded of
        everything received is what the buffer holds. */
    ghost predicate Loaded()
      reads this, readBuf
    {
      && readBuf.Length == READ_BUF
      && readLen <= READ_BUF
      && forwarded + Frames(readBuf[..readLen]) == Frames(received)
      && Tail(readBuf[..readLen]) == Tail(received)
      && (haveLength ==> readLen >= 2 && expectLen == Length(readBuf[..readLen]))
    }

    /** recv's effect on the buffer. */
    method Fill(data: seq<byte>)
      requires Valid() && readLen + |data| <= READ_BUF
      modifies this`readLen, this`received, readBuf
      ensures Loaded() && received == old(received) + data
    {
      ParseAppend(received, data);
      ghost var before := readBuf[..readLen];
      forall i | 0 <= i < |data| {
        readBuf[readLen + i] := data[i];
      }
      readLen := readLen + |data|;
      received := received + data;
      assert readBuf[..readLen] == before + data;
    }

    /** Drops the first `consumed` bytes of the buffer. */
    method ShiftDown(consumed: nat)
      requires readBuf.Length == READ_BUF && consumed <= readLen <= READ_BUF
      modifies this`readLen, this`haveLength, this`expectLen, readBuf
      ensures readLen == old(readLen) - consumed && !haveLength
      ensures readBuf[..readLen] == old(readBuf[..readLen])[consumed..]
    {
      var remaining := readLen - consumed;
      forall i | 0 <= i < remaining {
        readBuf[i] := readBuf[consumed + i];
      }
      readLen := remaining;
      haveLength := false;
      expectLen := 0;
    }

    /** Hands the frame at the front of the buffer to the host. */
    method ForwardFirst(channel: HostChannel) returns (ok: bool)
      requires Loaded() && open && haveLength && readLen >= 2 + expectLen
      modifies this`open, this`readLen, this`haveLength, this`expectLen, this`received, this`forwarded, readBuf, channel
      ensures received == old(received)
      ensures old(forwarded) <= forwarded
      ensures channel.delivered == old(channel.delivered) + Labelled(id, forwarded[|old(forwarded)|..])
      ensures ok <==> open
      ensures ok ==> Loaded() && !haveLength && readLen < old(readLen)
      ensures !ok ==> forwarded < Frames(received)
      ensures ok == NextTaken(old(channel.takes)) && channel.takes == Rest(old(channel.takes))
      ensures |forwarded| == |old(forwarded)| + (if ok then 1 else 0) && |old(forwarded)| < |Frames(received)|
    {
      ghost var b := readBuf[..readLen];
      FramePopped(forwarded, b, received, expectLen);
      var payload := Front(expectLen);
      ok := SendPayload(channel, payload);
      if ok {
        ShiftDown(2 + expectLen);
        assert readBuf[..readLen] == b[2 + |payload|..];
        assert forwarded == old(forwarded) + [payload];
      }
    }

    /** Sends one payload; on failure the connection is closed. */
    method SendPayload(channel: HostChannel, payload: seq<byte>) returns (ok: bool)
      requires open
      modifies this`open, this`forwarded, channel
      ensures ok <==> open
      ensures ok == NextTaken(old(channel.takes)) && channel.takes == Rest(old(channel.takes))
      ensures forwarded == old(forwarded) + if ok then [payload] else []
      ensures channel.delivered == old(channel.delivered) + Labelled(id, forwarded[|old(forwarded)|..])
    {
      ok := channel.Send(IPPROTO_TCP, id, payload);
      if ok {
        forwarded := forwarded + [payload];
        assert forwarded[|old(forwarded)|..] == [payload];
      } else {
        open := false;
        assert forwarded[|old(forwarded)|..] == [];
      }
    }

    /** The `n` bytes after the length prefix. */
    method Front(n: nat) returns (payload: seq<byte>)
      requires 2 + n <= readLen <= readBuf.Length
      ensures payload == readBuf[..readLen][2..2 + n]
    {
      payload := readBuf[2..2 + n];
      ghost var b := readBuf[..readLen];
      assert forall i :: 0 <= i < n ==> payload[i] == b[2 + i];
      assert payload == b[2..2 + n];
    }

    /** The inner loop: forwards every complete frame and keeps the rest. */
    method Extract(channel: HostChannel) returns (ok: bool)
      requires Loaded() && open
      modifies this`open, this`readLen, this`haveLength, this`expectLen, this`received, this`forwarded, readBuf, channel
      ensures received == old(received)
      ensures old(forwarded) <= forwarded
      ensures channel.delivered == old(channel.delivered) + Labelled(id, forwarded[|old(forwarded)|..])
      ensures open <==> ok
      ensures ok ==> Valid()
      ensures !ok ==> forwarded < Frames(received)
      ensures InTurn(|old(forwarded)|, |forwarded|, |Frames(received)|, old(channel.takes), channel.takes)
    {
      hide Frames, Tail, Complete, Length, Loaded, Valid;
      assert forwarded[|forwarded|..] == [];
      ok := true;
      var complete := FindFrame();
      while complete && ok
        invariant received == old(received)
        invariant open <==> ok
        invariant ok ==> Loaded() && FrameFound(complete)
        invariant old(forwarded) <= forwarded
        invariant channel.delivered == old(channel.delivered) + Labelled(id, forwarded[|old(forwarded)|..])
        invariant !ok ==> forwarded < Frames(received)
        invariant InTurn(|old(forwarded)|, |forwarded|, |forwarded| + (if ok then 0 else 1), old(channel.takes), channel.takes)
        decreases ok, readLen
      {
        ghost var before, takes := forwarded, channel.takes;
        ok := ForwardFirst(channel);
        LabelledGrows(id, old(forwarded), before, forwarded);
        OneInTurn(|old(forwarded)|, |before|, old(channel.takes), takes);
        if ok {
          complete := FindFrame();
        }
      }
      if ok {
        NothingLeft();
      } else {
        NoMoreInTurn(|old(forwarded)|, |forwarded|, |forwarded| + 1, |Frames(received)|, old(channel.takes), channel.takes);
      }
    }

    lemma NothingLeft()
      requires Loaded() && FrameFound(false)
      ensures Valid()
    {
      Drained(forwarded, readBuf[..readLen], received);
    }

    ghost predicate FrameFound(complete: bool)
      requires Loaded()
      reads this, readBuf
    {
      && (complete <==> Complete(readBuf[..readLen]))
      && (complete ==> haveLength && readLen >= 2 + expectLen)
      && (haveLength <==> readLen >= 2)
    }

    /** Reads the length prefix once it is there; is the frame complete? */
    method FindFrame() returns (complete: bool)
      requires Loaded()
      modifies this`haveLength, this`expectLen
      ensures Loaded() && FrameFound(complete)
    {
      if !haveLength {
        if readLen < 2 {
          return false;
        }
        expectLen := PrefixLength();
        haveLength := true;
      }
      return readLen >= 2 + expectLen;
    }

    /** The first two bytes in network order. */
    method PrefixLength() returns (n: nat)
      requires 2 <= readLen <= readBuf.Length
      ensures n == Length(readBuf[..readLen])
    {
      n := readBuf[0] as int * 256 + readBuf[1] as int;
    }
  }

  /** Of the messages numbered from `from` to `all` those up to `sent` have been taken, sending
      them in turn with this script. */
  ghost predicate InTurn(from: nat, sent: nat, all: nat, takes: seq<bool>, left: seq<bool>) {
    && from <= sent <= all
    && sent - from == Taken(takes, all - from) && left == AfterSends(takes, all - from)
  }

  lemma NoneInTurn(from: nat, takes: seq<bool>)
    ensures InTurn(from, from, from, takes, takes)
  {
  }

  lemma NoneLabelled(id: nat)
    ensures Labelled(id, []) == []
  {
  }

  /** One more message. */
  lemma OneInTurn(from: nat, sent: nat, takes: seq<bool>, left: seq<bool>)
    requires InTurn(from, sent, sent, takes, left)
    ensures InTurn(from, if NextTaken(left) then sent + 1 else sent, sent + 1, takes, Rest(left))
  {
    TakenOn(takes, sent - from, 1);
    assert AfterSends(left, 1) == Rest(left) && Taken(left, 1) == if NextTaken(left) then 1 else 0;
  }

  /** More messages, when all so far were taken. */
  lemma OnInTurn(from: nat, mid: nat, sent: nat, all: nat, takes: seq<bool>, between: seq<bool>, left: seq<bool>)
    requires InTurn(from, mid, mid, takes, between) && InTurn(mid, sent, all, between, left)
    ensures InTurn(from, sent, all, takes, left)
  {
    TakenOn(takes, mid - from, all - mid);
  }

  /** After one that was not taken no more are sent. */
  lemma NoMoreInTurn(from: nat, sent: nat, all: nat, more: nat, takes: seq<bool>, left: seq<bool>)
    requires InTurn(from, sent, all, takes, left) && all <= more && (sent < all || all == more)
    ensures InTurn(from, sent, more, takes, left)
  {
    TakenOn(takes, all - from, more - all);
  }

  /** The account after the first `n`-byte frame of the buffer has been forwarded. */
  lemma FramePopped(forwarded: seq<seq<byte>>, b: seq<byte>, received: seq<byte>, n: nat)
    requires forwarded + Frames(b) == Frames(received) && Tail(b) == Tail(received)
    requires |b| >= 2 && n == Length(b) && |b| >= 2 + n
    ensures forwarded + [b[2..2 + n]] + Frames(b[2 + n..]) == Frames(received)
    ensures Tail(b[2 + n..]) == Tail(received)
    ensures forwarded < Frames(received)
  {
    FirstFrame(b);
    OneMore(forwarded, b[2..2 + n], Frames(b[2 + n..]), Frames(received));
  }

  lemma OneMore(done: seq<seq<byte>>, next: seq<byte>, left: seq<seq<byte>>, all: seq<seq<byte>>)
    requires done + ([next] + left) == all
    ensures done + [next] + left == all && done < all
  {
  }

  lemma Drained(forwarded: seq<seq<byte>>, b: seq<byte>, received: seq<byte>)
    requires forwarded + Frames(b) == Frames(received) && Tail(b) == Tail(received)
    requires !Complete(b)
    ensures forwarded == Frames(received) && b == Tail(received)
  {
  }

  lemma LabelledGrows(id: nat, a: seq<seq<byte>>, b: seq<seq<byte>>, c: seq<seq<byte>>)
    requires a <= b <= c
    ensures Labelled(id, c[|a|..]) == Labelled(id, b[|a|..]) + Labelled(id, c[|b|..])
  {
  }
}
