/** Byte strings and the fixed-width integer packings the protocol uses
    (`struct.pack` with the formats `B`, `b`, `<H` and `<I`). */
module Bytes {

  /** An octet, as the values of a Python `bytes` object. */
  type byte = x: int | 0 <= x < 256
  type Bytes = seq<byte>

  /** `n` copies of `v`, as Python's `bytes([v]) * n`. */
  function Repeat(v: byte, n: nat): (r: Bytes)
    ensures |r| == n
    ensures forall i :: 0 <= i < n ==> r[i] == v
  {
    seq(n, _ => v)
  }

  /** `n` zero bytes, as `b'\x00' * n`. */
  function Zeros(n: nat): (r: Bytes)
    ensures |r| == n
    ensures forall i :: 0 <= i < n ==> r[i] == 0
  {
    Repeat(0, n)
  }

  /** The signed value of a byte read as a two's-complement `int8`. */
  function Signed(b: byte): (v: int)
    ensures -128 <= v < 128
  {
    if b < 128 then b else b - 256
  }

  /** `struct.pack('!b', v)`: one byte holding `v` in two's complement. */
  function SignedByte(v: int): (b: byte)
    requires -128 <= v < 128
    ensures Signed(b) == v
  {
    if v < 0 then v + 256 else v
  }

  /** The unsigned value of a two-byte little-endian field. */
  function U16(lo: byte, hi: byte): (n: nat)
    ensures n < 0x1_0000
  {
    lo + 256 * hi
  }

  /** The unsigned value of a four-byte little-endian field. */
  function U32(b0: byte, b1: byte, b2: byte, b3: byte): (n: nat)
    ensures n < 0x1_0000_0000
  {
    U16(b0, b1) + 0x1_0000 * U16(b2, b3)
  }

  /** `struct.pack('<H', n)`. */
  function LE16(n: nat): (r: Bytes)
    requires n < 0x1_0000
    ensures |r| == 2
    ensures U16(r[0], r[1]) == n
  {
    [n % 256, n / 256]
  }

  /** `struct.pack('<I', n)`. */
  function LE32(n: nat): (r: Bytes)
    requires n < 0x1_0000_0000
    ensures |r| == 4
    ensures U32(r[0], r[1], r[2], r[3]) == n
  {
    LE16(n % 0x1_0000) + LE16(n / 0x1_0000)
  }

  /** `b''.join(chunks)`. */
  function Flatten(chunks: seq<Bytes>): Bytes
  {
    if |chunks| == 0 then [] else chunks[0] + Flatten(chunks[1..])
  }

  lemma {:induction false} FlattenAppend(a: seq<Bytes>, b: seq<Bytes>)
    ensures Flatten(a + b) == Flatten(a) + Flatten(b)
    decreases |a|
  {
    if |a| == 0 {
      assert a + b == b;
    } else {
      assert (a + b)[1..] == a[1..] + b;
      FlattenAppend(a[1..], b);
    }
  }

  lemma FlattenCons(a: Bytes, rest: seq<Bytes>)
    ensures Flatten([a] + rest) == a + Flatten(rest)
  {
    assert ([a] + rest)[1..] == rest;
  }

  lemma FlattenOne(a: Bytes)
    ensures Flatten([a]) == a
  {
    FlattenCons(a, []);
    assert [a] + [] == [a];
  }

  lemma FlattenThree(a: Bytes, b: Bytes, c: Bytes)
    ensures Flatten([a, b, c]) == a + b + c
  {
    FlattenCons(a, [b, c]);
    FlattenCons(b, [c]);
    FlattenOne(c);
    assert [a, b, c] == [a] + [b, c] && [b, c] == [b] + [c];
  }

  lemma Associate3(a: Bytes, b: Bytes, c: Bytes)
    ensures a + (b + c) == a + b + c
  {
  }

  lemma Associate(a: Bytes, b: Bytes, c: Bytes, d: Bytes)
    ensures a + b + c + d == a + (b + c + d)
  {
  }

  /** `block * n` for a byte string: `n` copies laid end to end. */
  function RepeatBytes(block: Bytes, n: nat): (r: Bytes)
    ensures |r| == n * |block|
  {
    if n == 0 then [] else block + RepeatBytes(block, n - 1)
  }
}
