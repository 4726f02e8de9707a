/** The framing of SocketListener.cpp: a four-byte big-endian length, then the message. */
module Frames {
  type Byte = n: nat | n < 256

  /** One more than the largest uint32_t. */
  const WIDTH: nat := 0x1_0000_0000

  /** Message lengths pass through an int on the way to htonl. */
  const MAX_MESSAGE: nat := 0x7FFF_FFFF

  /** The size of the receive buffers. */
  const CHUNK: nat := 16384

  type Message = m: seq<Byte> | |m| <= MAX_MESSAGE witness []

  /** The bytes of htonl(n). */
  function Header(n: nat): (h: seq<Byte>)
    requires n < WIDTH
    ensures |h| == 4
  {
    [n / 0x100_0000, n / 0x1_0000 % 256, n / 256 % 256, n % 256]
  }

  /** ntohl. */
  function Length(h: seq<Byte>): (n: nat)
    requires |h| == 4
    ensures n < WIDTH
  {
    var a: int, b: int, c: int, d: int := h[0], h[1], h[2], h[3];
    ((a * 256 + b) * 256 + c) * 256 + d
  }

  lemma HeaderLength(n: nat)
    requires n < WIDTH
    ensures Length(Header(n)) == n
  {
    assert n / 256 / 256 == n / 0x1_0000 && n / 0x1_0000 / 256 == n / 0x100_0000;
  }

  function Frame(m: Message): (f: seq<Byte>)
    ensures |f| == 4 + |m|
  {
    Header(|m|) + m
  }

  /** Frames delimit themselves: no frame starts another. */
  lemma FramesDelimit(m: Message, n: Message)
    requires Frame(m) <= Frame(n)
    ensures m == n
  {
    assert Frame(n)[..4] == Header(|n|) && Frame(m)[..4] == Header(|m|);
    assert Frame(m)[..4] == Frame(n)[..|Frame(m)|][..4] == Frame(n)[..4];
    HeaderLength(|m|);
    HeaderLength(|n|);
    assert m == Frame(m)[4..] && n == Frame(n)[4..];
  }

  /** The bytes are in network order: the header of a smaller number is smaller at the first difference. */
  lemma HeaderOrder(m: nat, n: nat)
    requires m < n < WIDTH
    ensures exists i | 0 <= i < 4 :: Header(m)[..i] == Header(n)[..i] && Header(m)[i] < Header(n)[i]
  {
    var a, b := Header(m), Header(n);
    HeaderLength(m);
    HeaderLength(n);
    if a[0] != b[0] {
      assert a[..0] == b[..0];
    } else if a[1] != b[1] {
      assert a[..1] == b[..1];
    } else if a[2] != b[2] {
      assert a[..2] == b[..2];
    } else {
      assert a[..3] == b[..3];
    }
  }

  /** len -= n on an unsigned 32-bit counter. */
  function Minus(len: nat, n: nat): nat {
    (len - n) % WIDTH
  }
}
