/** The fixed 32-byte header at the start of a DAT container and its decoder
    (`get_header`). Every field is a big-endian `u32`. */
module DatHeader {
  import opened Wrappers
  import opened BigEndian

  /** The header record: eight `u32` fields in declaration order. */
  datatype Header = Header(
    fileSize: u32,     // size of the whole file in bytes
    bodySize: u32,     // size of the body, i.e. offset of the relocation table
    reltabCount: u32,  // number of relocation-table entries
    rootCount: u32,    // number of root nodes
    xrefCount: u32,    // number of external-reference nodes
    unknown0x14: u32,
    unknown0x18: u32,
    unknown0x1c: u32)
  {
    /** The fields in declaration order, which is also their order in the file. */
    function Words(): (ws: seq<u32>)
      ensures |ws| == FieldCount
    {
      [fileSize, bodySize, reltabCount, rootCount, xrefCount, unknown0x14, unknown0x18, unknown0x1c]
    }
  }

  /** Number of fields of a header. */
  const FieldCount: nat := 8

  /** `size_of::<Header>()`: eight `u32`s, no padding. */
  const HeaderSize: nat := FieldCount * WordSize

  /** Why a buffer could not be decoded; the system panics with
      "dat file too small!" in this case. */
  datatype HeaderError = FileTooSmall(length: nat)

  /** The big-endian word stored at byte offset `off` of `v`. */
  function WordAt(v: seq<byte>, off: nat): u32
    requires off + WordSize <= |v|
  {
    FromBeBytes(v[off..off + WordSize])
  }

  /** `get_header`: decodes the header from the first 32 bytes of `v`,
      whatever follows them. Field `i` is the word at offset `4 * i`. */
  function GetHeader(v: seq<byte>): (r: Result<Header, HeaderError>)
    ensures r.Failure? <==> |v| < HeaderSize
    ensures r.Failure? ==> r.error == FileTooSmall(|v|)
    ensures r.Success? ==> forall i :: 0 <= i < FieldCount ==>
      r.value.Words()[i] == v[4 * i] as int * 0x100_0000 + v[4 * i + 1] as int * 0x1_0000
                            + v[4 * i + 2] as int * 0x100 + v[4 * i + 3]
  {
    if |v| < HeaderSize then
      Failure(FileTooSmall(|v|))
    else
      Success(Header(
        WordAt(v, 0x00), WordAt(v, 0x04), WordAt(v, 0x08), WordAt(v, 0x0C),
        WordAt(v, 0x10), WordAt(v, 0x14), WordAt(v, 0x18), WordAt(v, 0x1C)))
  }

  /** The inverse of `GetHeader`: the 32 bytes of `h`, each field written with
      `u32::to_be_bytes` in declaration order. The system has no encoder; this
      serves as the reference the decoder is checked against. */
  function EncodeHeader(h: Header): (r: seq<byte>)
    ensures |r| == HeaderSize
  {
    ToBeBytes(h.fileSize) + ToBeBytes(h.bodySize) + ToBeBytes(h.reltabCount)
      + ToBeBytes(h.rootCount) + ToBeBytes(h.xrefCount) + ToBeBytes(h.unknown0x14)
      + ToBeBytes(h.unknown0x18) + ToBeBytes(h.unknown0x1c)
  }

  /** Only the first 32 bytes are read: buffers that agree on them decode alike. */
  lemma HeaderDependsOnPrefixOnly(v: seq<byte>, w: seq<byte>)
    requires |v| >= HeaderSize && |w| >= HeaderSize
    requires v[..HeaderSize] == w[..HeaderSize]
    ensures GetHeader(v) == GetHeader(w)
  {
  }

  /** Decoding the encoding of a header, followed by anything, gives the header back. */
  lemma DecodeEncodeHeader(h: Header, rest: seq<byte>)
    ensures GetHeader(EncodeHeader(h) + rest) == Success(h)
  {
    var v := EncodeHeader(h) + rest;
    assert v[0x00..0x04] == ToBeBytes(h.fileSize);
    assert v[0x04..0x08] == ToBeBytes(h.bodySize);
    assert v[0x08..0x0C] == ToBeBytes(h.reltabCount);
    assert v[0x0C..0x10] == ToBeBytes(h.rootCount);
    assert v[0x10..0x14] == ToBeBytes(h.xrefCount);
    assert v[0x14..0x18] == ToBeBytes(h.unknown0x14);
    assert v[0x18..0x1C] == ToBeBytes(h.unknown0x18);
    assert v[0x1C..0x20] == ToBeBytes(h.unknown0x1c);
    FromToBeBytes(h.fileSize);
    FromToBeBytes(h.bodySize);
    FromToBeBytes(h.reltabCount);
    FromToBeBytes(h.rootCount);
    FromToBeBytes(h.xrefCount);
    FromToBeBytes(h.unknown0x14);
    FromToBeBytes(h.unknown0x18);
    FromToBeBytes(h.unknown0x1c);
  }

  /** Any buffer long enough decodes, and re-encoding the result gives back
      exactly its first 32 bytes. */
  lemma EncodeDecodeHeader(v: seq<byte>)
    requires |v| >= HeaderSize
    ensures GetHeader(v).Success?
    ensures EncodeHeader(GetHeader(v).value) == v[..HeaderSize]
  {
    ToFromBeBytes(v[0x00..0x04]);
    ToFromBeBytes(v[0x04..0x08]);
    ToFromBeBytes(v[0x08..0x0C]);
    ToFromBeBytes(v[0x0C..0x10]);
    ToFromBeBytes(v[0x10..0x14]);
    ToFromBeBytes(v[0x14..0x18]);
    ToFromBeBytes(v[0x18..0x1C]);
    ToFromBeBytes(v[0x1C..0x20]);
    assert v[..HeaderSize] == v[0x00..0x04] + v[0x04..0x08] + v[0x08..0x0C] + v[0x0C..0x10]
                            + v[0x10..0x14] + v[0x14..0x18] + v[0x18..0x1C] + v[0x1C..0x20];
  }

  /** The decoder does not compare `file_size` with the buffer length: for
      every buffer length the header accepts and every `u32` value, some
      buffer of that length decodes to a header claiming that file size. */
  lemma FileSizeNotChecked(n: nat, x: u32)
    requires n >= HeaderSize
    ensures exists v: seq<byte> :: |v| == n && GetHeader(v).Success? && GetHeader(v).value.fileSize == x
  {
    var v: seq<byte> := ToBeBytes(x) + seq(n - WordSize, _ => 0);
    assert v[0..WordSize] == ToBeBytes(x);
    FromToBeBytes(x);
    assert GetHeader(v).value.fileSize == x;
  }
}
