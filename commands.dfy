/**
 * The payload layouts of the host's commands, as the handlers in main.c read
 * them out of the `msg_generic` buffer of the command loop. That buffer is
 * zero-initialised before each reception, so a field that lies past the
 * received `data_len` reads as 0.
 */
module Commands {
  import opened Machine

  /** Byte `i` of the payload buffer: the received byte, or the buffer's initial 0 past `data_len`. */
  function PayloadByte(d: seq<byte>, i: nat): byte
  {
    if i < |d| then d[i] else 0
  }

  /** The 32-bit field at byte offset `off`, lowest byte first. */
  function Field32(d: seq<byte>, off: nat): u32
  {
    FromLE32([PayloadByte(d, off), PayloadByte(d, off + 1), PayloadByte(d, off + 2), PayloadByte(d, off + 3)])
  }

  /** The 16-bit field at byte offset `off`, lowest byte first. */
  function Field16(d: seq<byte>, off: nat): u16
  {
    FromLE16([PayloadByte(d, off), PayloadByte(d, off + 1)])
  }

  /** A field that was received whole carries exactly the bytes the host sent. */
  lemma Field32Received(d: seq<byte>, off: nat)
    requires off + 4 <= |d|
    ensures LE32(Field32(d, off)) == d[off..off + 4]
  {
    FromLE32RoundTrip(d[off..off + 4]);
    assert [PayloadByte(d, off), PayloadByte(d, off + 1), PayloadByte(d, off + 2), PayloadByte(d, off + 3)]
      == d[off..off + 4];
  }

  /**
   * A field cut short by `data_len` keeps only the bytes received: they are
   * its low bytes, and every byte past them reads 0.
   */
  lemma Field32Truncated(d: seq<byte>, off: nat)
    requires |d| < off + 4
    ensures off <= |d| ==> LE32(Field32(d, off)) == d[off..] + seq(off + 4 - |d|, _ => 0)
    ensures |d| <= off ==> Field32(d, off) == 0
    ensures Field32(d, off) < 0x100_0000
  {
    var b := [PayloadByte(d, off), PayloadByte(d, off + 1), PayloadByte(d, off + 2), PayloadByte(d, off + 3)];
    FromLE32RoundTrip(b);
    if off <= |d| {
      assert b == d[off..] + seq(off + 4 - |d|, _ => 0);
    }
  }

  /** `msg_boot_enter.magic`. */
  function Magic(d: seq<byte>): u32 { Field32(d, 0) }

  /** `address` of READ_DATA, VERIFY and WRITE_DATA. */
  function Address(d: seq<byte>): u32 { Field32(d, 0) }

  /** `msg_boot_read_data.length`: two bytes after the address. */
  function ReadLength(d: seq<byte>): u16 { Field16(d, 4) }

  /** `msg_boot_verify.length`: four bytes after the address. */
  function VerifyLength(d: seq<byte>): u32 { Field32(d, 4) }

  /** `msg_boot_erase_sector.sector`: one byte. */
  function SectorIndex(d: seq<byte>): byte { PayloadByte(d, 0) }

  /**
   * `len` of WRITE_DATA: `data_len - 4` converted to `uint32_t`, so a payload
   * shorter than its address field gives a length near 2^32.
   */
  function WriteLength(d: seq<byte>): (len: u32)
    ensures |d| >= 4 && |d| - 4 < 0x1_0000_0000 ==> len == |d| - 4
    ensures |d| < 4 ==> len == 0x1_0000_0000 + |d| - 4
  {
    Wrap32(|d| - 4)
  }
}
