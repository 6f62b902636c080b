/**
 * Collaborators the bootloader calls but whose code is not part of this
 * model: the COBS/R codec, the CRC16 and CRC32 engines, the message
 * structure sizes and the message ids. Each is a constant without a
 * definition, so nothing is known about it beyond its type. The COBS/R
 * codec's type carries the laws the transport depends on.
 */
module External {
  import opened Machine

  type Positive = x: int | x > 0 witness 1

  /**
   * The two calls of the COBS/R ("reduced" Consistent Overhead Byte
   * Stuffing) library. Each takes the source bytes and the capacity of the
   * destination buffer and yields the bytes written there, or None for any
   * status other than OK.
   */
  datatype CobsrOps = CobsrOps(
    encode: (seq<byte>, nat) -> Option<seq<byte>>,
    decode: (seq<byte>, nat) -> Option<seq<byte>>)

  /**
   * What the transport assumes of the codec: encoded output fits the
   * destination and holds no 0x00 byte, decoding an encoding gives the
   * source back whenever the source fits the decode destination, and
   * decoded output fits its destination.
   */
  ghost predicate CobsrLaws(c: CobsrOps)
  {
    && (forall src: seq<byte>, cap: nat :: c.encode(src, cap).Some? ==>
          |c.encode(src, cap).value| <= cap && 0 !in c.encode(src, cap).value)
    && (forall src: seq<byte>, cap: nat, dcap: nat :: c.encode(src, cap).Some? && |src| <= dcap ==>
          c.decode(c.encode(src, cap).value, dcap) == Some(src))
    && (forall src: seq<byte>, cap: nat :: c.decode(src, cap).Some? ==>
          |c.decode(src, cap).value| <= cap)
  }

  /** Codecs that keep the laws; the witness, a codec that always fails, only shows the type is inhabited. */
  type Cobsr = c: CobsrOps | CobsrLaws(c)
    witness CobsrOps((src, cap) => None, (src, cap) => None)

  /** The library linked into the firmware. */
  const COBSR: Cobsr

  /** `COBSR_ENCODE_DST_BUF_LEN_MAX(n)`: the buffer size the library asks for when encoding n bytes. */
  const COBSR_ENCODE_DST_BUF_LEN_MAX: nat -> nat

  /** `crc16_finalize(crc16_update(crc16_init(), bytes))`. */
  const CRC16: seq<byte> -> u16

  /** `crc32_finalize(crc32_update(crc32_init(), bytes))`. */
  const CRC32: seq<byte> -> u32

  /** Capacity of a message's payload array. */
  const MSG_MAX_DATA_SIZE: nat

  /** `sizeof(((struct msg_shell_to_pc *)0)->data)`: text bytes one SHELL_TO_PC message carries. */
  const SHELL_TO_PC_DATA_SIZE: Positive

  const MSG_ID_BOOT_ENTER: u16
  const MSG_ID_BOOT_READ_DATA: u16
  const MSG_ID_BOOT_VERIFY: u16
  const MSG_ID_BOOT_WRITE_DATA: u16
  const MSG_ID_BOOT_ERASE_SECTOR: u16
  const MSG_ID_BOOT_EXIT: u16
  const MSG_ID_BOOT_RESPONSE: u16
  const MSG_ID_SHELL_TO_PC: u16
}
