/** Messages on the DNS channel to the host (dns_channel_send, dns_channel_recv in
    FreeBSD/dns_tunneling.h): a 12-byte header, an 8-byte client identifier and the
    DNS bytes. Header words are 32-bit and little-endian. */
module DnsChannel {
  import opened Sockets
  import opened Words

  const HEADER := 12
  const IDENTIFIER := 8
  const DNS_TUNNELING := 70
  /** dns_channel_recv refuses a larger header size. */
  const LARGEST := 65536 + HEADER

  function EncodeMessage(protocol: byte, id: nat, dns: seq<byte>): (m: seq<byte>)
    ensures |m| == HEADER + IDENTIFIER + |dns|
  {
    Le32(DNS_TUNNELING) + Le32(HEADER + IDENTIFIER + |dns|) + Le32(0) + [protocol, 0, 0, 0] + Le32(id) + dns
  }

  datatype Decoded =
    | Message(protocol: byte, id: nat, dns: seq<byte>, rest: seq<byte>)
    | Refused

  /** One message off the front of what the host has sent. */
  function DecodeMessage(s: seq<byte>): Decoded {
    if |s| < HEADER then Refused else
      var size := Word(s[4..8]);
      if size < HEADER || size > LARGEST then Refused
      else if |s| < size then Refused
      else if Word(s[0..4]) != DNS_TUNNELING then Refused
      else if size - HEADER < IDENTIFIER then Refused
      else Message(s[12], Word(s[16..20]), s[20..size], s[size..])
  }

  /** Read is exactly what has the type 70 in its header, a size from 20 to 65548 bytes and
      that many bytes; anything else is refused. */
  lemma OnlyThatTypeIsRead(s: seq<byte>)
    ensures DecodeMessage(s).Message? <==>
            |s| >= 20 && 20 <= Word(s[4..8]) <= 65548 && Word(s[4..8]) <= |s| && Word(s[0..4]) == 70
    ensures var d := DecodeMessage(s);
            d.Message? ==>
              && d.protocol == s[12] && d.id == Word(s[16..20])
              && d.dns == s[20..Word(s[4..8])] && d.rest == s[Word(s[4..8])..]
  {
  }

  /** The header fields of an encoded message, wherever the stream goes on. */
  lemma EncodedFields(protocol: byte, id: nat, dns: seq<byte>, rest: seq<byte>)
    ensures var s := EncodeMessage(protocol, id, dns) + rest;
            && s[0..4] == Le32(DNS_TUNNELING)
            && s[4..8] == Le32(HEADER + IDENTIFIER + |dns|)
            && s[12] == protocol
            && s[16..20] == Le32(id)
            && s[20..20 + |dns|] == dns
            && s[20 + |dns|..] == rest
  {
  }

  /** The host's decoder gets back what was sent exactly up to 65528 bytes. */
  lemma ChannelRoundTrip(protocol: byte, id: nat, dns: seq<byte>, rest: seq<byte>)
    requires id < 0x1_0000_0000
    ensures DecodeMessage(EncodeMessage(protocol, id, dns) + rest) == Message(protocol, id, dns, rest) <==> |dns| <= 65528
  {
    hide EncodeMessage, Le32, Word;
    EncodedFields(protocol, id, dns, rest);
    Le32Word(DNS_TUNNELING);
    Le32Word(HEADER + IDENTIFIER + |dns|);
    Le32Word(id);
  }

  /** No answer off the channel is too large for a two-byte length. */
  lemma AnswerFits(s: seq<byte>)
    ensures DecodeMessage(s).Message? ==> |DecodeMessage(s).dns| <= 65528
  {
  }

  function EncodeMessages(ms: seq<(byte, nat, seq<byte>)>): seq<byte> {
    if ms == [] then [] else EncodeMessage(ms[0].0, ms[0].1, ms[0].2) + EncodeMessages(ms[1..])
  }

  /** Reads messages until one is refused. */
  function DecodeMessages(s: seq<byte>): seq<(byte, nat, seq<byte>)>
    decreases |s|
  {
    var d := DecodeMessage(s);
    if d.Refused? || |d.rest| >= |s| then [] else [(d.protocol, d.id, d.dns)] + DecodeMessages(d.rest)
  }

  /** A whole conversation survives the channel, message by message. */
  lemma {:induction false} ConversationRoundTrip(ms: seq<(byte, nat, seq<byte>)>)
    requires forall i :: 0 <= i < |ms| ==> ms[i].1 < 0x1_0000_0000 && |ms[i].2| <= 65528
    ensures DecodeMessages(EncodeMessages(ms)) == ms
  {
    if ms != [] {
      ChannelRoundTrip(ms[0].0, ms[0].1, ms[0].2, EncodeMessages(ms[1..]));
      ConversationRoundTrip(ms[1..]);
    }
  }
}
