/** Byte-level vocabulary shared by the DDP header codec, the receiver and the
    web colour view: bytes as bounded integers, an option type, zero-filled
    byte strings and big-endian field values. */
module Bytes {

  /** One octet, as Python's `bytes`/`bytearray` elements are. */
  type byte = x: int | 0 <= x < 0x100

  /** Python's `None`-or-value. */
  datatype Option<+T> = None | Some(value: T)

  /** `n` zero bytes: what `bytearray(n)` and `b"\x00" * n` produce. */
  function Zeros(n: nat): (z: seq<byte>)
    ensures |z| == n
    ensures forall i :: 0 <= i < n ==> z[i] == 0
  {
    seq(n, _ => 0)
  }

  /** Value of a 2-byte big-endian field (most significant byte first). */
  function Be16(bs: seq<byte>): (v: nat)
    requires |bs| == 2
    ensures v < 0x1_0000
  {
    bs[0] as int * 0x100 + bs[1]
  }

  /** Value of a 4-byte big-endian field (most significant byte first):
      `int.from_bytes(bs, "big")`. */
  function Be32(bs: seq<byte>): (v: nat)
    requires |bs| == 4
    ensures v < 0x1_0000_0000
  {
    bs[0] as int * 0x100_0000 + bs[1] as int * 0x1_0000 + bs[2] as int * 0x100 + bs[3]
  }

  /** The byte `x >> (8 * k) & 0xFF` of an arbitrary Python integer, for
      `k < 4`.  Python's `>>` floors and `& 0xFF` keeps the low eight bits of
      the two's-complement value, which is Dafny's Euclidean `/` and `%` by
      positive divisors. */
  function ByteAt(x: int, k: nat): (b: byte)
    requires k < 4
  {
    if k == 0 then x % 0x100
    else if k == 1 then (x / 0x100) % 0x100
    else if k == 2 then (x / 0x1_0000) % 0x100
    else (x / 0x100_0000) % 0x100
  }

  /** The divisors a byte shift uses: 2 ** (8 * k) for k in 0..4. */
  predicate ByteUnit(d: int)
  {
    d == 1 || d == 0x100 || d == 0x1_0000 || d == 0x100_0000 || d == 0x1_0000_0000
  }

  /** Quotient and remainder by a byte unit are determined by any
      decomposition `x == q * d + r` with `0 <= r < d`. */
  lemma DivModUnique(x: int, d: int, q: int, r: int)
    requires ByteUnit(d) && 0 <= r < d && x == q * d + r
    ensures x / d == q && x % d == r
  {
    if d == 1 {
    } else if d == 0x100 {
    } else if d == 0x1_0000 {
    } else if d == 0x100_0000 {
    } else {
    }
  }

  /** Splitting an integer into the four bytes `x >> 24 & 0xFF`, ...,
      `x & 0xFF` and reading them back big-endian gives `x` modulo 2^32. */
  lemma Be32Split(x: int)
    ensures Be32([ByteAt(x, 3), ByteAt(x, 2), ByteAt(x, 1), ByteAt(x, 0)]) == x % 0x1_0000_0000
  {
    var b3, x1 := x % 0x100, x / 0x100;
    var b2, x2 := x1 % 0x100, x1 / 0x100;
    var b1, x3 := x2 % 0x100, x2 / 0x100;
    var b0, x4 := x3 % 0x100, x3 / 0x100;
    DivModUnique(x, 0x1_0000, x2, 0x100 * b2 + b3);
    DivModUnique(x, 0x100_0000, x3, 0x1_0000 * b1 + 0x100 * b2 + b3);
    DivModUnique(x, 0x1_0000_0000, x4, 0x100_0000 * b0 + 0x1_0000 * b1 + 0x100 * b2 + b3);
  }

  /** The 16-bit analogue of `Be32Split`. */
  lemma Be16Split(x: int)
    ensures Be16([ByteAt(x, 1), ByteAt(x, 0)]) == x % 0x1_0000
  {
    var b1, x1 := x % 0x100, x / 0x100;
    var b0, x2 := x1 % 0x100, x1 / 0x100;
    DivModUnique(x, 0x1_0000, x2, 0x100 * b0 + b1);
  }

  /** Reading a 4-byte big-endian field and splitting it again returns the
      original bytes. */
  lemma Be32Bytes(bs: seq<byte>)
    requires |bs| == 4
    ensures var v := Be32(bs);
      && ByteAt(v, 3) == bs[0] && ByteAt(v, 2) == bs[1]
      && ByteAt(v, 1) == bs[2] && ByteAt(v, 0) == bs[3]
  {
    var v := Be32(bs);
    var b0: int, b1: int, b2: int, b3: int := bs[0], bs[1], bs[2], bs[3];
    DivModUnique(v, 0x100_0000, b0, 0x1_0000 * b1 + 0x100 * b2 + b3);
    DivModUnique(v, 0x1_0000, 0x100 * b0 + b1, 0x100 * b2 + b3);
    DivModUnique(v, 0x100, 0x1_0000 * b0 + 0x100 * b1 + b2, b3);
    DivModUnique(b0, 0x100, 0, b0);
    DivModUnique(0x100 * b0 + b1, 0x100, b0, b1);
    DivModUnique(0x1_0000 * b0 + 0x100 * b1 + b2, 0x100, 0x100 * b0 + b1, b2);
  }

  /** The 2-byte analogue of `Be32Bytes`. */
  lemma Be16Bytes(bs: seq<byte>)
    requires |bs| == 2
    ensures var v := Be16(bs);
      ByteAt(v, 1) == bs[0] && ByteAt(v, 0) == bs[1]
  {
    var v := Be16(bs);
    var b0: int, b1: int := bs[0], bs[1];
    DivModUnique(v, 0x100, b0, b1);
    DivModUnique(b0, 0x100, 0, b0);
  }

  /** The bytes after a prefix are the suffix, index by index. */
  lemma AfterPrefix(prefix: seq<byte>, suffix: seq<byte>)
    ensures forall i :: |prefix| <= i < |prefix + suffix| ==> (prefix + suffix)[i] == suffix[i - |prefix|]
  {
  }

  function Min(a: int, b: int): int
  {
    if a <= b then a else b
  }

  function Max(a: int, b: int): int
  {
    if a >= b then a else b
  }
}
