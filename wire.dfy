/** Bytes, 32-bit unsigned sizes and the little-endian size field of every chunk header. */
module Wire {
  const U32_LIMIT: nat := 0x1_0000_0000

  type Byte = b: nat | b < 0x100
  type U32 = n: nat | n < 0x1_0000_0000

  /** The low 32 bits of a count, as a cast `as u32` keeps them. */
  function Wrap32(n: nat): (r: U32)
    ensures n < U32_LIMIT ==> r == n
  {
    n % 0x1_0000_0000
  }

  /** The value of the first four bytes read as an unsigned little-endian integer
      (`u32::from_le_bytes`); the result type records that it always fits in 32 bits. */
  function ParseU32(data: seq<Byte>): U32
    requires |data| >= 4
  {
    data[0] as nat + 0x100 * (data[1] as nat) + 0x1_0000 * (data[2] as nat) + 0x100_0000 * (data[3] as nat)
  }

  /** The four bytes a size is written as (`to_ne_bytes` on a little-endian host). */
  function LeBytes(n: U32): (r: seq<Byte>)
    ensures |r| == 4
  {
    [n % 0x100, n / 0x100 % 0x100, n / 0x1_0000 % 0x100, n / 0x100_0000]
  }

  /** Division by 256 splits off the low byte. */
  lemma SplitLowByte(a: nat, high: nat, low: nat)
    requires a == 0x100 * high + low && low < 0x100
    ensures a / 0x100 == high && a % 0x100 == low
  {
  }

  /** Reading back a written size gives the size. */
  lemma ParseLeBytes(n: U32)
    ensures ParseU32(LeBytes(n)) == n
  {
    var b := LeBytes(n);
    assert n == b[0] as nat + 0x100 * (n / 0x100);
    assert n / 0x100 == b[1] as nat + 0x100 * (n / 0x1_0000);
    assert n / 0x1_0000 == b[2] as nat + 0x100 * (n / 0x100_0000);
  }

  /** Writing a read size reproduces the four bytes it was read from. */
  lemma LeBytesOfParse(data: seq<Byte>)
    requires |data| == 4
    ensures LeBytes(ParseU32(data)) == data
  {
    var n := ParseU32(data);
    var q2 := data[2] as nat + 0x100 * (data[3] as nat);
    var q1 := data[1] as nat + 0x100 * q2;
    SplitLowByte(n, q1, data[0]);
    SplitLowByte(q1, q2, data[1]);
    SplitLowByte(q2, data[3], data[2]);
    assert n / 0x1_0000 == q1 / 0x100;
    assert n / 0x100_0000 == q2 / 0x100;
  }

  /** `n` zero bytes, what `resize(len + n, 0)` and `[0u8; n]` append. */
  function Zeros(n: nat): (r: seq<Byte>)
    ensures |r| == n && forall i :: 0 <= i < n ==> r[i] == 0
  {
    seq(n, _ => 0)
  }

  /** Appending piece by piece builds the same sequence as appending the pieces joined. */
  lemma AppendAssoc<T>(a: seq<T>, b: seq<T>, c: seq<T>)
    ensures a + b + c == a + (b + c)
  {
  }

  /** What starts a sequence starts it with more appended. */
  lemma PrefixAppend<T>(a: seq<T>, b: seq<T>, c: seq<T>)
    requires a <= b
    ensures a <= b + c
  {
    assert (b + c)[..|a|] == b[..|a|];
  }
}
