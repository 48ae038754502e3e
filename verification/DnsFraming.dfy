/** DNS over TCP: every message is preceded by its length in two bytes, most
    significant first (section 4.2.2 of RFC 1035). A stream is parsed as a whole,
    which is what the two incremental readers are measured against. */
module DnsFraming {
  import opened Sockets

  /** The two-byte length prefix. */
  function Be16(n: nat): seq<byte>
    requires n < 0x1_0000
  {
    [n / 256, n % 256]
  }

  function Length(s: seq<byte>): nat
    requires |s| >= 2
  {
    s[0] as int * 256 + s[1] as int
  }

  /** `s` starts with a complete frame. */
  predicate Complete(s: seq<byte>) {
    |s| >= 2 && |s| >= 2 + Length(s)
  }

  function Frames(s: seq<byte>): seq<seq<byte>> {
    if Complete(s) then [s[2..2 + Length(s)]] + Frames(s[2 + Length(s)..]) else []
  }

  /** What is left when no complete frame remains. */
  function Tail(s: seq<byte>): seq<byte> {
    if Complete(s) then Tail(s[2 + Length(s)..]) else s
  }

  ghost predicate Encodable(fs: seq<seq<byte>>) {
    forall i :: 0 <= i < |fs| ==> |fs[i]| < 0x1_0000
  }

  function Framed(f: seq<byte>): seq<byte>
    requires |f| < 0x1_0000
  {
    Be16(|f|) + f
  }

  function Encode(fs: seq<seq<byte>>): seq<byte>
    requires Encodable(fs)
  {
    if fs == [] then [] else Framed(fs[0]) + Encode(fs[1..])
  }

  lemma Be16Length(s: seq<byte>)
    requires |s| >= 2
    ensures Length(s) < 0x1_0000 && Be16(Length(s)) == s[..2]
  {
  }

  lemma LengthBe16(n: nat, x: seq<byte>)
    requires n < 0x1_0000
    ensures Length(Be16(n) + x) == n
  {
  }

  /** A complete frame split off the front. */
  lemma FrontFrame(s: seq<byte>)
    requires Complete(s)
    ensures Length(s) < 0x1_0000
    ensures s == Framed(s[2..2 + Length(s)]) + s[2 + Length(s)..]
  {
    Be16Length(s);
    assert s == s[..2] + s[2..2 + Length(s)] + s[2 + Length(s)..];
  }

  /** A frame put in front comes off first. */
  lemma FramedFront(f: seq<byte>, x: seq<byte>)
    requires |f| < 0x1_0000
    ensures var s := Framed(f) + x;
            Complete(s) && Length(s) == |f| && s[2..2 + |f|] == f && s[2 + |f|..] == x
  {
    LengthBe16(|f|, f + x);
    assert Framed(f) + x == Be16(|f|) + (f + x);
  }

  lemma FirstFrame(s: seq<byte>)
    requires Complete(s)
    ensures Frames(s) == [s[2..2 + Length(s)]] + Frames(s[2 + Length(s)..])
    ensures Tail(s) == Tail(s[2 + Length(s)..])
  {
  }

  lemma EncodeCons(f: seq<byte>, fs: seq<seq<byte>>)
    requires |f| < 0x1_0000 && Encodable(fs)
    ensures Encodable([f] + fs) && Encode([f] + fs) == Framed(f) + Encode(fs)
  {
    assert ([f] + fs)[1..] == fs;
  }

  /** Parsing splits the stream and loses no byte of it. */
  lemma {:induction false} ParseCovers(s: seq<byte>)
    ensures Encodable(Frames(s))
    ensures s == Encode(Frames(s)) + Tail(s)
    ensures !Complete(Tail(s))
  {
    if Complete(s) {
      var f, rest := s[2..2 + Length(s)], s[2 + Length(s)..];
      FrontFrame(s);
      ParseCovers(rest);
      assert Frames(s) == [f] + Frames(rest) && Tail(s) == Tail(rest);
      PutInFront(s, f, rest, Frames(rest), Tail(rest));
    }
  }

  lemma PutInFront(s: seq<byte>, f: seq<byte>, rest: seq<byte>, fs: seq<seq<byte>>, t: seq<byte>)
    requires |f| < 0x1_0000 && Encodable(fs)
    requires s == Framed(f) + rest && rest == Encode(fs) + t
    ensures Encodable([f] + fs) && s == Encode([f] + fs) + t
  {
    EncodeCons(f, fs);
    assert Framed(f) + (Encode(fs) + t) == Framed(f) + Encode(fs) + t;
  }

  /** There is no other way to read the stream as frames and an incomplete rest. */
  lemma {:induction false} ParseUnique(fs: seq<seq<byte>>, t: seq<byte>)
    requires Encodable(fs) && !Complete(t)
    ensures Frames(Encode(fs) + t) == fs && Tail(Encode(fs) + t) == t
  {
    if fs == [] {
      assert Encode(fs) + t == t;
    } else {
      var x := Encode(fs[1..]) + t;
      assert Encode(fs) + t == Framed(fs[0]) + x;
      hide Complete, Length, Framed;
      FramedFront(fs[0], x);
      ParseUnique(fs[1..], t);
    }
  }

  /** Bytes that arrive later are parsed from the tail on. */
  lemma {:induction false} ParseAppend(a: seq<byte>, b: seq<byte>)
    ensures Frames(a + b) == Frames(a) + Frames(Tail(a) + b)
    ensures Tail(a + b) == Tail(Tail(a) + b)
    decreases |a|
  {
    if Complete(a) {
      var n := 2 + Length(a);
      assert (a + b)[2..n] == a[2..n];
      assert (a + b)[n..] == a[n..] + b;
      ParseAppend(a[n..], b);
    }
  }

  /** An incomplete frame is shorter than the longest frame. */
  lemma {:induction false} TailIsShort(s: seq<byte>)
    ensures |Tail(s)| < 2 + 0xffff
    ensures |Tail(s)| <= |s|
  {
    if Complete(s) {
      TailIsShort(s[2 + Length(s)..]);
    }
  }
}
