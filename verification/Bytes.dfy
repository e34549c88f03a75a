/** Bytes and big-endian 32-bit words (`htonl`, `ntohl`). */
module Bytes {
  import opened Prelude

  newtype byte = x: int | 0 <= x < 256

  function Word(b: seq<byte>): (v: nat)
    requires |b| == 4
    ensures v < WORD
  {
    ((b[0] as nat * 256 + b[1] as nat) * 256 + b[2] as nat) * 256 + b[3] as nat
  }

  function WordBytes(v: nat): (b: seq<byte>)
    requires v < WORD
    ensures |b| == 4
  {
    [(v / 0x100_0000) as byte, (v / 0x1_0000 % 256) as byte, (v / 256 % 256) as byte, (v % 256) as byte]
  }

  lemma WordOfBytes(v: nat)
    requires v < WORD
    ensures Word(WordBytes(v)) == v
  {
    var a, b := v / 256, v / 0x1_0000;
    assert a / 256 == b && b / 256 == v / 0x100_0000;
    assert v == a * 256 + v % 256 && a == b * 256 + a % 256 && b == (b / 256) * 256 + b % 256;
  }

  lemma BytesOfWord(b: seq<byte>)
    requires |b| == 4
    ensures WordBytes(Word(b)) == b
  {
    var h := b[0] as nat * 256 + b[1] as nat;
    var k := h * 256 + b[2] as nat;
    assert Word(b) / 256 == k && Word(b) % 256 == b[3] as nat;
    assert k / 256 == h && k % 256 == b[2] as nat;
    assert Word(b) / 0x1_0000 == h && Word(b) / 0x100_0000 == b[0] as nat;
  }

  /** `s` with `data` in place of the bytes from `at` on. */
  function Splice(s: seq<byte>, at: nat, data: seq<byte>): (r: seq<byte>)
    requires at + |data| <= |s|
    ensures |r| == |s|
  {
    s[..at] + data + s[at + |data|..]
  }

  /** `memcpy` into a buffer. */
  method CopyIn(buf: array<byte>, at: nat, data: seq<byte>)
    requires at + |data| <= buf.Length
    modifies buf
    ensures buf[..] == Splice(old(buf[..]), at, data)
  {
    for i := 0 to |data|
      invariant buf[..at + i] == old(buf[..at]) + data[..i]
      invariant buf[at + i..] == old(buf[at + i..])
    {
      buf[at + i] := data[i];
    }
    assert data[..|data|] == data;
  }
}
