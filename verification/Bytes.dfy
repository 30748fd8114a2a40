module Bytes {
  type Byte = b: int | 0 <= b < 256

  const CR: Byte := 13
  const LF: Byte := 10
  const BLANK: Byte := 32

  /** memcpy() into a buffer. */
  method Put(buf: array<Byte>, at: nat, piece: seq<Byte>)
    requires at + |piece| <= buf.Length
    modifies buf
    ensures buf[..at + |piece|] == old(buf[..at]) + piece
  {
    for i := 0 to |piece|
      invariant buf[..at + i] == old(buf[..at]) + piece[..i]
    {
      buf[at + i] := piece[i];
      assert buf[..at + i + 1] == buf[..at + i] + [piece[i]];
    }
  }
}
