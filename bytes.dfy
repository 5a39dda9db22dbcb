/** Bytes and the big-endian unsigned integers that prefix every field of the
    wire format (`read_u32::<BigEndian>` / `write_u32::<BigEndian>`). */
module Bytes {

  /** A Rust `u8`. */
  newtype byte = x: int | 0 <= x < 0x100

  /** 256 to the power `width`: the number of values `width` bytes can hold. */
  function Capacity(width: nat): (c: nat)
    ensures c > 0
  {
    if width == 0 then 1 else 0x100 * Capacity(width - 1)
  }

  /** Number of values of a `u32`; a length cast with `as u32` is reduced modulo this. */
  const U32_LIMIT: nat := 0x1_0000_0000

  /** Rust's `n as u32` on a length: keeps the low 32 bits. */
  function AsU32(n: nat): (r: nat)
    ensures r < U32_LIMIT
    ensures n < U32_LIMIT ==> r == n
  {
    n % U32_LIMIT
  }

  /** The value of a big-endian byte sequence, most significant byte first. */
  function BigEndianValue(b: seq<byte>): nat
  {
    if b == [] then 0 else BigEndianValue(b[..|b| - 1]) * 0x100 + b[|b| - 1] as nat
  }

  /** `width` bytes hold values below `Capacity(width)`. */
  lemma {:induction false} ValueBound(b: seq<byte>)
    ensures BigEndianValue(b) < Capacity(|b|)
  {
    if b != [] {
      ValueBound(b[..|b| - 1]);
    }
  }

  /** The `width` low-order bytes of `n`, most significant first. */
  function BigEndian(n: nat, width: nat): (b: seq<byte>)
    ensures |b| == width
  {
    if width == 0 then [] else BigEndian(n / 0x100, width - 1) + [(n % 0x100) as byte]
  }

  /** Encoding a value that fits and reading it back gives the value. */
  lemma {:induction false} ValueOfBigEndian(n: nat, width: nat)
    requires n < Capacity(width)
    ensures BigEndianValue(BigEndian(n, width)) == n
  {
    if width > 0 {
      ValueOfBigEndian(n / 0x100, width - 1);
      var b := BigEndian(n, width);
      assert b[..width - 1] == BigEndian(n / 0x100, width - 1);
    }
  }

  /** Splitting `hi * 256 + lo` back into its two digits. */
  lemma DigitSplit(hi: nat, lo: nat)
    requires lo < 0x100
    ensures (hi * 0x100 + lo) / 0x100 == hi && (hi * 0x100 + lo) % 0x100 == lo
  {
  }

  /** Reading a byte sequence and encoding its value at the same width gives
      the sequence back: at a fixed width the encoding is a bijection. */
  lemma {:induction false} BigEndianOfValue(b: seq<byte>)
    ensures BigEndian(BigEndianValue(b), |b|) == b
  {
    if b != [] {
      var init := b[..|b| - 1];
      DigitSplit(BigEndianValue(init), b[|b| - 1] as nat);
      BigEndianOfValue(init);
    }
  }

  /** Four bytes hold exactly the values of a `u32`. */
  lemma U32Capacity()
    ensures Capacity(4) == U32_LIMIT
  {
  }

  /** The value of four big-endian bytes, as `read_u32::<BigEndian>` yields it. */
  function BeU32Value(b: seq<byte>): (n: nat)
    requires |b| == 4
    ensures n < U32_LIMIT
  {
    U32Capacity();
    ValueBound(b);
    BigEndianValue(b)
  }

  /** The four big-endian bytes of a `u32`, as `write_u32::<BigEndian>` emits them. */
  function BeU32(n: nat): (b: seq<byte>)
    requires n < U32_LIMIT
    ensures |b| == 4 && BeU32Value(b) == n
  {
    U32Capacity();
    ValueOfBigEndian(n, 4);
    BigEndian(n, 4)
  }

  /** The four bytes of a `u32`, most significant first: bits 31-24, 23-16,
      15-8, then 7-0. */
  lemma BeU32Bytes(n: nat)
    requires n < U32_LIMIT
    ensures BeU32(n) == [(n / 0x100_0000) as byte, (n / 0x1_0000 % 0x100) as byte,
                         (n / 0x100 % 0x100) as byte, (n % 0x100) as byte]
  {
    var n1, n2, n3 := n / 0x100, n / 0x1_0000, n / 0x100_0000;
    assert n1 / 0x100 == n2 && n2 / 0x100 == n3 && n3 < 0x100;
    calc {
      BeU32(n);
      BigEndian(n, 4);
      BigEndian(n1, 3) + [(n % 0x100) as byte];
      BigEndian(n2, 2) + [(n1 % 0x100) as byte] + [(n % 0x100) as byte];
      BigEndian(n3, 1) + [(n2 % 0x100) as byte] + [(n1 % 0x100) as byte] + [(n % 0x100) as byte];
      { assert BigEndian(n3, 1) == [] + [(n3 % 0x100) as byte]; }
      [n3 as byte, (n2 % 0x100) as byte, (n1 % 0x100) as byte, (n % 0x100) as byte];
    }
  }

  /** Every four-byte header is the encoding of its own value. */
  lemma BeU32OfValue(b: seq<byte>)
    requires |b| == 4
    ensures BeU32(BeU32Value(b)) == b
  {
    BigEndianOfValue(b);
  }
}
