/** Bytes and the `struct` big-endian formats `!B`, `!H` and `!I`, and a stream that
    `recv(n)` reads from. */
module Wire {
  newtype byte = x: int | 0 <= x < 256

  const U16Limit: nat := 0x1_0000
  const U32Limit: nat := 0x1_0000_0000

  /** `struct.pack("!H", n)`: the two bytes of `n`, high byte first. */
  function PackU16(n: nat): (b: seq<byte>)
    requires n < U16Limit
    ensures |b| == 2
  {
    [(n / 0x100) as byte, (n % 0x100) as byte]
  }

  /** `struct.unpack("!H", b)[0]`. */
  function UnpackU16(b: seq<byte>): (n: nat)
    requires |b| == 2
    ensures n < U16Limit
  {
    b[0] as nat * 0x100 + b[1] as nat
  }

  /** `struct.pack("!I", n)`: the four bytes of `n`, most significant first. */
  function PackU32(n: nat): (b: seq<byte>)
    requires n < U32Limit
    ensures |b| == 4
  {
    PackU16(n / U16Limit) + PackU16(n % U16Limit)
  }

  /** `struct.unpack("!I", b)[0]`. */
  function UnpackU32(b: seq<byte>): (n: nat)
    requires |b| == 4
    ensures n < U32Limit
  {
    UnpackU16(b[..2]) * U16Limit + UnpackU16(b[2..])
  }

  lemma UnpackPackU16(n: nat)
    requires n < U16Limit
    ensures UnpackU16(PackU16(n)) == n
  {
  }

  lemma PackUnpackU16(b: seq<byte>)
    requires |b| == 2
    ensures PackU16(UnpackU16(b)) == b
  {
    var n := UnpackU16(b);
    assert n / 0x100 == b[0] as nat;
    assert n % 0x100 == b[1] as nat;
  }

  /** Decoding undoes encoding: `unpack("!I", pack("!I", n)) == n`. */
  lemma UnpackPackU32(n: nat)
    requires n < U32Limit
    ensures UnpackU32(PackU32(n)) == n
  {
    var b := PackU32(n);
    assert b[..2] == PackU16(n / U16Limit) && b[2..] == PackU16(n % U16Limit);
    UnpackPackU16(n / U16Limit);
    UnpackPackU16(n % U16Limit);
  }

  /** Encoding undoes decoding: every four bytes are the encoding of their value. */
  lemma PackUnpackU32(b: seq<byte>)
    requires |b| == 4
    ensures PackU32(UnpackU32(b)) == b
  {
    var hi := UnpackU16(b[..2]);
    var lo := UnpackU16(b[2..]);
    var n := UnpackU32(b);
    assert n / U16Limit == hi && n % U16Limit == lo;
    PackUnpackU16(b[..2]);
    PackUnpackU16(b[2..]);
    assert b == b[..2] + b[2..];
  }

  /** Two values with the same encoding are equal. */
  lemma PackU32Injective(m: nat, n: nat)
    requires m < U32Limit && n < U32Limit && PackU32(m) == PackU32(n)
    ensures m == n
  {
    UnpackPackU32(m);
    UnpackPackU32(n);
  }

  /** `recv(n)` on a stream whose bytes have all arrived: at most `n` bytes, fewer only
      when the stream ends; the rest stays for the next read. */
  function Recv(stream: seq<byte>, n: nat): (r: (seq<byte>, seq<byte>))
    ensures r.0 + r.1 == stream
    ensures |r.0| == if n <= |stream| then n else |stream|
  {
    if n <= |stream| then (stream[..n], stream[n..]) else (stream, [])
  }
}
