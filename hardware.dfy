/**
 * The serial link and the millisecond tick counter, seen from the firmware:
 * a finite record of what `uart_getc()` returned and what `tickcount` read,
 * and the bytes handed to `uart_write()`.
 */
module Hardware {
  import opened Machine

  /** What `uart_getc()` returns: a received byte, or -1 when none is waiting. */
  type GetcResult = c: int | -1 <= c < 0x100

  /** One poll of the receiver: the `uart_getc()` result and the tick count read in the same pass. */
  datatype Sample = Sample(c: GetcResult, tick: u32)

  class Link {
    /** Polls still to come, in order. */
    var input: seq<Sample>
    /** Every byte written so far, in order. */
    var output: seq<byte>

    constructor (input: seq<Sample>)
      ensures this.input == input && output == []
    {
      this.input := input;
      output := [];
    }

    /** `tickcount` read between polls: the time of the next poll. */
    function Now(): u32
      reads this
      requires input != []
    {
      input[0].tick
    }

    /** `uart_getc()` together with the tick count read after it. */
    method Getc() returns (c: GetcResult, tick: u32)
      requires input != []
      modifies this`input
      ensures old(input) == [Sample(c, tick)] + input
    {
      c, tick := input[0].c, input[0].tick;
      input := input[1..];
    }

    /** `uart_write(buf, len)`. */
    method Write(bytes: seq<byte>)
      modifies this`output
      ensures output == old(output) + bytes
    {
      output := output + bytes;
    }
  }
}
