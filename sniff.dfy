/**
 * Format sniffing: the fixed-offset signature probes that decide whether a
 * file is a Snappy framed stream or a tar archive. A file is its bytes.
 */
module Sniff {

  type byte = bv8

  /** The stream-identifier chunk of the Snappy framing format: type 0xff, length 6, "sNaPpY". */
  const SzSignature: seq<byte> := [0xff, 0x06, 0x00, 0x00, 0x73, 0x4e, 0x61, 0x50, 0x70, 0x59]

  /** The "magic" field of a ustar header. */
  const TarMagic: seq<byte> := [0x75, 0x73, 0x74, 0x61, 0x72]

  /** Byte offset of the "magic" field within the first ustar header block. */
  const TarMagicOffset: nat := 257

  /**
   * os.File.ReadAt into a buffer of `count` bytes at offset `off`: the bytes
   * read, which are fewer than `count` exactly when the file ends first.
   */
  function ReadAt(file: seq<byte>, off: nat, count: nat): (r: seq<byte>)
    requires count > 0
    ensures |r| <= count
    ensures |r| == count <==> off + count <= |file|
    ensures forall k :: 0 <= k < |r| ==> off + k < |file| && r[k] == file[off + k]
  {
    if off >= |file| then []
    else if off + count <= |file| then file[off..off + count]
    else file[off..]
  }

  /** isSz: true exactly when the first 10 bytes exist and are the Snappy stream identifier. */
  method IsSz(file: seq<byte>) returns (r: bool)
    ensures r <==> |file| >= |SzSignature| && file[..|SzSignature|] == SzSignature
  {
    var total := 10;
    var bytes := ReadAt(file, 0, total);
    if |bytes| < total {
      return false;
    }
    var i := 0;
    while i < |bytes|
      invariant 0 <= i <= |bytes|
      invariant forall k :: 0 <= k < i ==> bytes[k] == SzSignature[k]
    {
      if bytes[i] != SzSignature[i] {
        return false;
      }
      i := i + 1;
    }
    assert bytes == file[..total];
    return true;
  }

  /** isTar: true exactly when bytes 257 to 261 exist and spell "ustar". */
  method IsTar(file: seq<byte>) returns (r: bool)
    ensures r <==> |file| >= TarMagicOffset + |TarMagic|
                   && file[TarMagicOffset..TarMagicOffset + |TarMagic|] == TarMagic
  {
    var bytes := ReadAt(file, 257, 5);
    if |bytes| < 5 {
      return false;
    }
    var i := 0;
    while i < |bytes|
      invariant 0 <= i <= |bytes|
      invariant forall k :: 0 <= k < i ==> bytes[k] == TarMagic[k]
    {
      if bytes[i] != TarMagic[i] {
        return false;
      }
      i := i + 1;
    }
    assert bytes == file[257..262];
    return true;
  }
}
