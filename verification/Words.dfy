/** 32-bit little-endian words, as they lie in the messages of both channels. */
module Words {
  import opened Sockets

  /** A 32-bit word; larger values lose their upper bits. */
  function Le32(n: nat): (w: seq<byte>)
    ensures |w| == 4
  {
    [n % 0x100, n / 0x100 % 0x100, n / 0x100 / 0x100 % 0x100, n / 0x100 / 0x100 / 0x100 % 0x100]
  }

  lemma LowWord(n: nat, q: nat, r: nat)
    requires n == 0x1_0000_0000 * q + r && r < 0x1_0000_0000
    ensures n % 0x1_0000_0000 == r
  {
  }

  lemma Le32Word(n: nat)
    ensures Word(Le32(n)) == n % 0x1_0000_0000
  {
    var n1, d0 := n / 0x100, n % 0x100;
    var n2, d1 := n1 / 0x100, n1 % 0x100;
    var n3, d2 := n2 / 0x100, n2 % 0x100;
    var q, d3 := n3 / 0x100, n3 % 0x100;
    assert Le32(n) == [d0, d1, d2, d3];
    LowWord(n, q, d0 + 0x100 * d1 + 0x1_0000 * d2 + 0x100_0000 * d3);
  }

  function Word(w: seq<byte>): nat
    requires |w| == 4
  {
    w[0] as int + 0x100 * w[1] as int + 0x1_0000 * w[2] as int + 0x100_0000 * w[3] as int
  }
}
