/** Bytes, 32-bit words and the big-endian conversion between them:
    `u32::from_be_bytes`, and `u32::to_be_bytes` as its reference inverse. */
module BigEndian {

  /** An unsigned 8-bit value (`u8`). */
  type byte = b: int | 0 <= b < 0x100

  /** An unsigned 32-bit value (`u32`). */
  type u32 = w: int | 0 <= w < 0x1_0000_0000

  /** Number of bytes in a `u32`. */
  const WordSize: nat := 4

  /** The value of a byte string read most significant byte first
      (Horner's rule, one base-256 digit at a time). */
  function BeValue(a: seq<byte>): nat
    decreases |a|
  {
    if |a| == 0 then 0 else BeValue(a[..|a| - 1]) * 0x100 + a[|a| - 1]
  }

  /** `u32::from_be_bytes`: four bytes, the first one most significant. */
  function FromBeBytes(a: seq<byte>): (w: u32)
    requires |a| == WordSize
    ensures w == a[0] as int * 0x100_0000 + a[1] as int * 0x1_0000 + a[2] as int * 0x100 + a[3]
  {
    assert BeValue(a[..1]) == a[0] by { assert a[..1][..0] == []; }
    assert BeValue(a[..2]) == a[0] as int * 0x100 + a[1] by { assert a[..2][..1] == a[..1]; }
    assert BeValue(a[..3]) == (a[0] as int * 0x100 + a[1]) * 0x100 + a[2] by { assert a[..3][..2] == a[..2]; }
    assert a[..4][..3] == a[..3];
    BeValue(a)
  }

  /** `u32::to_be_bytes`: the four base-256 digits of `w`, most significant first. */
  function ToBeBytes(w: u32): (a: seq<byte>)
    ensures |a| == WordSize
  {
    [w / 0x100_0000, (w / 0x1_0000) % 0x100, (w / 0x100) % 0x100, w % 0x100]
  }

  /** Reading back the bytes of a word yields the word. */
  lemma FromToBeBytes(w: u32)
    ensures FromBeBytes(ToBeBytes(w)) == w
  {
  }

  /** Writing out the value of four bytes yields the same four bytes. */
  lemma ToFromBeBytes(a: seq<byte>)
    requires |a| == WordSize
    ensures ToBeBytes(FromBeBytes(a)) == a
  {
    var w := FromBeBytes(a);
    assert w / 0x100 == (a[0] as int * 0x100 + a[1]) * 0x100 + a[2];
    assert w / 0x1_0000 == a[0] as int * 0x100 + a[1];
    assert w / 0x100_0000 == a[0];
  }
}
