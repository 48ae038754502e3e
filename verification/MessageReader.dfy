/** The buffered readers of the control channel (FreeBSD/hvbridge.c, 512 bytes)
    and of the interop channel (FreeBSD/interop_server.h, 1024 bytes): the same
    code over a buffer of a different size. */
module MessageReader {
  import opened Sockets
  import opened Words
  import opened Wrappers

  const HEADER := 12

  function MessageSize(s: seq<byte>): nat
    requires |s| >= HEADER
  {
    Word(s[4..8])
  }

  /** `s` starts with a message that a buffer of `n` bytes can hold. */
  predicate Whole(s: seq<byte>, n: nat) {
    |s| >= HEADER && HEADER <= MessageSize(s) <= n && MessageSize(s) <= |s|
  }

  /** A header that no message in such a buffer can have. */
  predicate BadSize(s: seq<byte>, n: nat) {
    |s| >= HEADER && !(HEADER <= MessageSize(s) <= n)
  }

  /** The framing of a byte stream, up to the first message that is incomplete or of an illegal size. */
  function Messages(s: seq<byte>, n: nat): seq<seq<byte>> {
    if Whole(s, n) then [s[..MessageSize(s)]] + Messages(s[MessageSize(s)..], n) else []
  }

  function Flatten(ms: seq<seq<byte>>): seq<byte> {
    if ms == [] then [] else ms[0] + Flatten(ms[1..])
  }

  /** A message on its own. */
  predicate IsMessage(m: seq<byte>, n: nat) {
    |m| >= HEADER && MessageSize(m) == |m| <= n
  }

  lemma {:induction false} FlattenSnoc(ms: seq<seq<byte>>, m: seq<byte>)
    ensures Flatten(ms + [m]) == Flatten(ms) + m
  {
    if ms == [] {
      assert [m][1..] == [];
    } else {
      assert (ms + [m])[1..] == ms[1..] + [m];
      FlattenSnoc(ms[1..], m);
    }
  }

  lemma WholeFront(m: seq<byte>, x: seq<byte>, n: nat)
    requires IsMessage(m, n)
    ensures Whole(m + x, n) && MessageSize(m + x) == |m|
    ensures Messages(m + x, n) == [m] + Messages(x, n)
  {
    assert (m + x)[4..8] == m[4..8];
    assert (m + x)[..|m|] == m && (m + x)[|m|..] == x;
  }

  /** Any way of cutting messages off the front of a stream is the framing's. */
  lemma {:induction false} FramingIsUnique(ms: seq<seq<byte>>, t: seq<byte>, n: nat)
    requires forall i :: 0 <= i < |ms| ==> IsMessage(ms[i], n)
    ensures Messages(Flatten(ms) + t, n) == ms + Messages(t, n)
  {
    if ms == [] {
      assert Flatten(ms) + t == t;
    } else {
      hide Messages, IsMessage, Whole, MessageSize;
      FramingIsUnique(ms[1..], t, n);
      WholeFront(ms[0], Flatten(ms[1..]) + t, n);
      assert ms[0] + (Flatten(ms[1..]) + t) == Flatten(ms) + t;
      assert ms == [ms[0]] + ms[1..];
    }
  }

  datatype Status = Disconnected | NeedMore | Available(size: nat)

  /** What a call reports with `b` in a buffer of `n` bytes, and whether recv found the stream at its end. */
  function Report(b: seq<byte>, n: nat, ended: bool): Status {
    if ended || BadSize(b, n) then Disconnected
    else if Whole(b, n) then Available(MessageSize(b))
    else NeedMore
  }

  /** A message that is already whole is lost exactly when the end of the stream is
      found; only a full buffer is safe, since then recv is not called. */
  lemma LostAtEnd(b: seq<byte>, n: nat, ended: bool)
    requires |b| <= n && (ended ==> |b| < n)
    ensures Whole(b, n) && Report(b, n, ended) == Disconnected <==> Whole(b, n) && ended
    ensures Whole(b, n) && |b| == n ==> Report(b, n, ended) == Available(MessageSize(b))
  {
  }

  /** Such a message is a header of 12 bytes in the control channel's buffer. */
  lemma HeaderLostAtEnd()
    ensures var b := [0, 0, 0, 0, 12, 0, 0, 0, 0, 0, 0, 0];
            && Whole(b, 512) && Report(b, 512, true) == Disconnected
            && Report(b, 512, false) == Available(12)
  {
    var b := [0, 0, 0, 0, 12, 0, 0, 0, 0, 0, 0, 0];
    assert b[4..8] == [12, 0, 0, 0];
  }

  class Reader {
    const buf: array<byte>
    var len: nat

    ghost var received: seq<byte>
    ghost var consumed: seq<seq<byte>>

    ghost predicate Valid()
      reads this, buf
    {
      && buf.Length >= HEADER
      && len <= buf.Length
      && received == Flatten(consumed) + buf[..len]
      && forall i :: 0 <= i < |consumed| ==> IsMessage(consumed[i], buf.Length)
    }

    constructor (capacity: nat)
      requires capacity >= HEADER
      ensures Valid() && buf.Length == capacity && received == [] && consumed == [] && fresh(buf)
    {
      buf := new byte[capacity];
      len := 0;
      received, consumed := [], [];
    }

    /** control_try_read, interop_try_read. A full buffer never asks for more; a
        closed or failed socket disconnects even with a whole message waiting. */
    method TryRead(socket: Socket) returns (status: Status)
      requires Valid()
      modifies this`len, this`received, buf, socket
      ensures Valid()
      ensures var found := if old(len) < buf.Length then Finds(old(socket.script)) else None;
              && (received != old(received) <==> found.Some? && found.value.Bytes?)
              && status == Report(buf[..len], buf.Length, found == Some(Eof) || found == Some(Error))
      ensures var found := if old(len) < buf.Length then Finds(old(socket.script)) else None;
              var ended, b := found == Some(Eof) || found == Some(Error), buf[..len];
              if ended then status.Disconnected?
              else if |b| < 12 then status.NeedMore?
              else
                var size := b[4] as int + 0x100 * b[5] as int + 0x1_0000 * b[6] as int + 0x100_0000 * b[7] as int;
                if size < 12 || size > buf.Length then status.Disconnected?
                else if |b| < size then status.NeedMore?
                else status == Available(size)
      ensures status.NeedMore? ==> len < buf.Length
      ensures old(received) <= received
      ensures !status.Disconnected? ==> old(received) + Pending(old(socket.script)) == received + Pending(socket.script)
    {
      hide Flatten, IsMessage;
      FoundNext(socket.script);
      if len < buf.Length {
        var r := socket.Receive(buf.Length - len);
        match r {
          case Data(data) =>
            assert received + Pending(old(socket.script)) == received + data + Pending(socket.script);
            assert received + data != received;
            Append(data);
          case EndOfFile =>
            return Disconnected;
          case Failure =>
            return Disconnected;
          case WouldBlock =>
          case Interruption =>
        }
      }
      if len < HEADER {
        return NeedMore;
      }
      var size := SizeField();
      if size < HEADER || size > buf.Length {
        return Disconnected;
      }
      if len < size {
        return NeedMore;
      }
      return Available(size);
    }

    method Append(data: seq<byte>)
      requires Valid() && len + |data| <= buf.Length
      modifies this`len, this`received, buf
      ensures Valid() && received == old(received) + data
    {
      ghost var held := buf[..len];
      forall i | 0 <= i < |data| {
        buf[len + i] := data[i];
      }
      len := len + |data|;
      received := received + data;
      assert buf[..len] == held + data;
    }

    method SizeField() returns (size: nat)
      requires HEADER <= len <= buf.Length
      ensures size == MessageSize(buf[..len])
    {
      ghost var b := buf[..len];
      assert b[4..8] == [buf[4], buf[5], buf[6], buf[7]];
      size := Word([buf[4], buf[5], buf[6], buf[7]]);
    }

    /** control_consume, interop_consume: drops `size` bytes, or all there are. */
    method Consume(size: nat)
      requires len <= buf.Length
      modifies this`len, buf
      ensures len <= old(len)
      ensures buf[..len] == if old(len) > size then old(buf[..len])[size..] else []
    {
      if len > size {
        ghost var b := buf[..len];
        forall i | 0 <= i < len - size {
          buf[i] := buf[size + i];
        }
        len := len - size;
        assert buf[..len] == b[size..];
      } else {
        len := 0;
      }
    }

    /** A caller that handles the available message and consumes it at its own size. */
    method Take(size: nat) returns (message: seq<byte>)
      requires Valid() && Whole(buf[..len], buf.Length) && size == MessageSize(buf[..len])
      modifies this`len, this`consumed, buf
      ensures Valid()
      ensures message == old(buf[..len])[..size]
      ensures consumed == old(consumed) + [message]
      ensures consumed <= Messages(received, buf.Length)
    {
      ghost var b := buf[..len];
      message := buf[..size];
      assert message == b[..size];
      TakeStep(consumed, b, received, size, buf.Length);
      consumed := consumed + [message];
      Consume(size);
      assert buf[..len] == b[size..];
    }
  }

  lemma TakeStep(consumed: seq<seq<byte>>, b: seq<byte>, received: seq<byte>, size: nat, n: nat)
    requires forall i :: 0 <= i < |consumed| ==> IsMessage(consumed[i], n)
    requires received == Flatten(consumed) + b && Whole(b, n) && size == MessageSize(b)
    ensures IsMessage(b[..size], n)
    ensures received == Flatten(consumed + [b[..size]]) + b[size..]
    ensures consumed + [b[..size]] <= Messages(received, n)
  {
    SizeKept(b, size);
    FlattenSnoc(consumed, b[..size]);
    assert b == b[..size] + b[size..];
    assert Flatten(consumed) + (b[..size] + b[size..]) == Flatten(consumed) + b[..size] + b[size..];
    FramingIsUnique(consumed + [b[..size]], b[size..], n);
  }

  lemma SizeKept(b: seq<byte>, size: nat)
    requires HEADER <= size <= |b| && size == MessageSize(b)
    ensures MessageSize(b[..size]) == size
  {
    assert b[..size][4..8] == b[4..8];
  }

  /** What has been consumed is always a prefix of the stream's one framing, and the
      rest of the framing is in the bytes still held. */
  lemma ConsumedIsFraming(r: Reader)
    requires r.Valid()
    ensures Messages(r.received, r.buf.Length) == r.consumed + Messages(r.buf[..r.len], r.buf.Length)
  {
    FramingIsUnique(r.consumed, r.buf[..r.len], r.buf.Length);
  }
}
