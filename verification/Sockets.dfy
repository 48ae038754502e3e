/** Bytes, and sockets as a script of what recv will find. */
module Sockets {
  import opened Wrappers

  type byte = x: int | 0 <= x < 256

  /** What a socket still has to deliver, in order. When nothing is left, recv would block. */
  datatype Event = Bytes(data: seq<byte>) | Interrupted | Eof | Error

  /** How a stream stops: it may go on, or it is closed or broken. */
  datatype End = Open | Closed | Broken

  datatype Recv = Data(data: seq<byte>) | WouldBlock | Interruption | EndOfFile | Failure

  class Socket {
    var script: seq<Event>

    constructor (script: seq<Event>)
      ensures this.script == script
    {
      this.script := script;
    }

    /** recv: data comes in pieces of any size the caller has room for. */
    method Receive(room: nat) returns (r: Recv)
      requires room > 0
      modifies this
      ensures !r.WouldBlock? ==> Work(script) < Work(old(script))
      ensures Fits(r, Finds(old(script))) && (r.Data? ==> 0 < |r.data| <= room)
      ensures r.WouldBlock? ==> script == []
      ensures r.Data? || r.Interruption? ==>
                Pending(old(script)) == Received(r) + Pending(script) && EndOf(script) == EndOf(old(script))
    {
      while script != [] && script[0] == Bytes([])
        invariant Work(script) == Work(old(script)) && Finds(script) == Finds(old(script))
        invariant Pending(script) == Pending(old(script)) && EndOf(script) == EndOf(old(script))
        decreases |script|
      {
        assert [] + Pending(script[1..]) == Pending(script[1..]);
        script := script[1..];
      }
      if script == [] {
        return WouldBlock;
      }
      var event := script[0];
      var rest := script[1..];
      match event
      case Bytes(data) =>
        var n: nat :| 0 < n <= room && n <= |data|;
        script := [Bytes(data[n..])] + rest;
        assert script[1..] == rest;
        assert data == data[..n] + data[n..];
        return Data(data[..n]);
      case Interrupted =>
        script := rest;
        return Interruption;
      case Eof =>
        script := rest;
        return EndOfFile;
      case Error =>
        script := rest;
        return Failure;
    }
  }

  /** What the next recv will find, if anything. */
  function Finds(script: seq<Event>): Option<Event> {
    if script == [] then None
    else if script[0] == Bytes([]) then Finds(script[1..])
    else Some(script[0])
  }

  /** recv's result for what it found: with data, some of it. */
  predicate Fits(r: Recv, found: Option<Event>) {
    match r
    case Data(data) => found.Some? && found.value.Bytes? && data <= found.value.data
    case WouldBlock => found == None
    case Interruption => found == Some(Interrupted)
    case EndOfFile => found == Some(Eof)
    case Failure => found == Some(Error)
  }

  function Received(r: Recv): seq<byte> {
    if r.Data? then r.data else []
  }

  /** The bytes a socket will deliver before it is closed or broken, */
  function Pending(script: seq<Event>): seq<byte> {
    if script == [] then []
    else
      match script[0]
      case Bytes(data) => data + Pending(script[1..])
      case Interrupted => Pending(script[1..])
      case _ => []
  }

  /** and whether it will be. */
  function EndOf(script: seq<Event>): End {
    if script == [] then Open
    else
      match script[0]
      case Eof => Closed
      case Error => Broken
      case _ => EndOf(script[1..])
  }

  function Work(script: seq<Event>): nat {
    if script == [] then 0 else (if script[0].Bytes? then |script[0].data| else 1) + Work(script[1..])
  }

  /** What the next recv finds tells how much there is to come. */
  lemma {:induction false} FoundNext(script: seq<Event>)
    ensures Finds(script) == None ==> Pending(script) == [] && EndOf(script) == Open
    ensures Finds(script) == Some(Eof) ==> Pending(script) == [] && EndOf(script) == Closed
    ensures Finds(script) == Some(Error) ==> Pending(script) == [] && EndOf(script) == Broken
  {
    if script != [] && script[0] == Bytes([]) {
      FoundNext(script[1..]);
    }
  }
}
