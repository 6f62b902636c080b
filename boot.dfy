/**
 * The command side of the bootloader (main.c): the armed flag, the
 * handlers of the host's commands and the command loop that receives
 * messages, dispatches them and decides when the bootloader hands over to
 * the application.
 *
 * Each handler is specified by the effect it has: the new value of the
 * armed flag, the flash calls it issues, the reply it sends and whether the
 * loop ends. `Handle` gives that effect for one received message and
 * `Run` for a whole session; the methods of `Bootloader` are proved to
 * produce exactly these effects on the flag, the flash controller, the
 * transport and the link.
 */
module Boot {
  import opened Machine
  import opened External
  import opened Hardware
  import opened MsgPacket
  import opened Replies
  import opened FlashMap
  import opened Commands
  import opened FlashOps

  /** The commands `msg_loop` tells apart. */
  datatype Command =
    | BootEnter
    | BootReadData
    | BootVerify
    | BootWriteData
    | BootEraseSector
    | BootExit
    | UnknownCommand

  /** The command a message id selects, tested in the order of `msg_loop`'s `if` and `switch`. */
  function CommandOf(id: u16): Command
  {
    if id == MSG_ID_BOOT_ENTER then BootEnter
    else if id == MSG_ID_BOOT_READ_DATA then BootReadData
    else if id == MSG_ID_BOOT_VERIFY then BootVerify
    else if id == MSG_ID_BOOT_WRITE_DATA then BootWriteData
    else if id == MSG_ID_BOOT_ERASE_SECTOR then BootEraseSector
    else if id == MSG_ID_BOOT_EXIT then BootExit
    else UnknownCommand
  }

  /**
   * What handling one message does: the armed flag afterwards, the flash
   * calls issued, the BOOT_RESPONSE payload sent (if any) and whether
   * `msg_loop` returns.
   */
  datatype Effect = Effect(active: bool, calls: seq<FlashCall>, reply: Option<seq<byte>>, exit: bool)

  /** No flash call, no reply, the flag unchanged. */
  function Quiet(active: bool): Effect
  {
    Effect(active, [], None, false)
  }

  /** `handle_boot_enter`: arms exactly on the right key, disarms otherwise, and replies with the new flag. */
  function EnterEffect(d: seq<byte>): Effect
  {
    var armed := Magic(d) == BOOT_MAGIC;
    Effect(armed, [], Some([if armed then 1 else 0]), false)
  }

  /** The address as the pointer `handle_boot_read_data` passes: address 0 is the null pointer. */
  function ReadSource(mem: u32 -> byte, a: u32, len: nat): (src: Option<seq<byte>>)
    ensures src.Some? ==> |src.value| == len
  {
    if a == 0 then None else Some(Bytes(mem, a, len))
  }

  /** `handle_boot_read_data`: replies with `length` bytes read from `address` through `send_response`. */
  function ReadEffect(mem: u32 -> byte, d: seq<byte>): Effect
  {
    Effect(true, [], Some(ResponseData(ReadSource(mem, Address(d), ReadLength(d)), ReadLength(d))), false)
  }

  /**
   * READ_DATA replies `length` bytes: byte i is the memory byte at
   * `address + i`, except that address 0 is the null pointer, for which
   * `send_response` copies nothing and every byte is 0.
   */
  lemma ReadReply(mem: u32 -> byte, d: seq<byte>)
    ensures ReadEffect(mem, d).reply.Some?
    ensures var r := ReadEffect(mem, d).reply.value;
      && |r| == ReadLength(d)
      && forall i :: 0 <= i < |r| ==> r[i] == (if Address(d) == 0 then 0 else mem(Wrap32(Address(d) + i)))
  {
    var r := ReadEffect(mem, d).reply.value;
    if Address(d) != 0 {
      assert r == Bytes(mem, Address(d), ReadLength(d));
    }
  }

  /** `handle_boot_verify`: replies with the CRC32 of `length` bytes from `address`, lowest byte first. */
  function VerifyEffect(mem: u32 -> byte, d: seq<byte>): Effect
  {
    Effect(true, [], Some(LE32(CRC32(Bytes(mem, Address(d), VerifyLength(d))))), false)
  }

  /** `handle_boot_write_data`: the write plan, then the controller status as a one-byte reply. */
  function WriteEffect(status: byte, d: seq<byte>): Effect
  {
    Effect(true, WritePlan(d), Some([status]), false)
  }

  /** `handle_boot_erase_sector`: the erase plan, then the controller status as a one-byte reply. */
  ghost function EraseEffect(mem: u32 -> byte, status: byte, d: seq<byte>): Effect
  {
    Effect(true, ErasePlan(mem, SectorIndex(d)), Some([status]), false)
  }

  /** `handle_boot_exit`: replies [1]; the loop then returns. */
  function ExitEffect(): Effect
  {
    Effect(true, [], Some([1]), true)
  }

  /**
   * One received message, handled as `msg_loop` does: BOOT_ENTER always;
   * any other command only while armed. The contract collects the rules the
   * command protocol promises.
   */
  ghost function Handle(active: bool, mem: u32 -> byte, status: byte, id: u16, d: seq<byte>): (e: Effect)
    // BOOT_ENTER arms exactly on the right key (disarming an armed session otherwise) and replies with the flag.
    ensures CommandOf(id) == BootEnter ==>
      && e.active == (Magic(d) == BOOT_MAGIC)
      && e.reply == Some([if e.active then 1 else 0])
      && e.calls == [] && !e.exit
    // No other command changes the flag.
    ensures CommandOf(id) != BootEnter ==> e.active == active
    // While unarmed, every other command is ignored: no flash call and no reply at all.
    ensures !active && CommandOf(id) != BootEnter ==> e == Quiet(false)
    // An unknown id sends no response.
    ensures CommandOf(id) == UnknownCommand ==> e.reply.None? && e.calls == [] && !e.exit
    // The loop ends only on BOOT_EXIT while armed, after replying [1].
    ensures e.exit <==> active && CommandOf(id) == BootExit
    ensures e.exit ==> e.reply == Some([1])
    // Flash is touched only by an armed WRITE_DATA or ERASE_SECTOR, which always reply with the status byte.
    ensures e.calls != [] ==> active && CommandOf(id) in {BootWriteData, BootEraseSector}
    ensures active && CommandOf(id) in {BootWriteData, BootEraseSector} ==> e.reply == Some([status])
    // Every flash call stays in the application region, inside an unlock/lock window.
    ensures Safe(e.calls) && Bracketed(e.calls, false)
  {
    match CommandOf(id)
    case BootEnter => EnterEffect(d)
    case _ =>
      if !active then Quiet(false)
      else match CommandOf(id)
        case BootReadData => ReadEffect(mem, d)
        case BootVerify => VerifyEffect(mem, d)
        case BootWriteData => WriteEffect(status, d)
        case BootEraseSector => EraseEffect(mem, status, d)
        case BootExit => ExitEffect()
        case _ => Quiet(true)
  }

  // ----------------------------------------------------------- the session

  /** What the command loop changes: the armed flag, `errno`, the flash calls issued and the bytes written to the link. */
  datatype Session = Session(active: bool, errno: Errno, calls: seq<FlashCall>, output: seq<byte>)

  /** The session after an effect: the flag set, the calls issued and the reply (if any) sent with `send_response`. */
  function Apply(s: Session, e: Effect): Session
  {
    match e.reply
    case None => Session(e.active, s.errno, s.calls + e.calls, s.output)
    case Some(r) =>
      Session(e.active, SendErrno(s.errno, MSG_ID_BOOT_RESPONSE, r), s.calls + e.calls,
              s.output + Emitted(MSG_ID_BOOT_RESPONSE, r))
  }

  /** Why the command loop stops. `TraceEnded` is the model's: the recorded polls run out first. */
  datatype Ending = TimedOut | Exited | TraceEnded

  /** How the command loop ends, the session then, and the polls it leaves unread. */
  datatype Outcome = Outcome(ending: Ending, session: Session, rest: seq<Sample>)

  /**
   * The `for (;;)` loop of `msg_loop`, from session `s` with reference `t0`:
   * while unarmed, it returns once more than BOOT_TIMEOUT ticks have passed
   * since `t0`; a failed reception only updates `errno`; a received message
   * is handled, and BOOT_EXIT ends the loop.
   */
  ghost function Run(s: Session, t0: u32, trace: seq<Sample>, mem: u32 -> byte, status: byte): (o: Outcome)
    decreases |trace|
  {
    if trace == [] then Outcome(TraceEnded, s, trace)
    else if !s.active && Sub32(trace[0].tick, t0) > BOOT_TIMEOUT then Outcome(TimedOut, s, trace)
    else match Receive(trace)
      case Pending => Outcome(TraceEnded, s, trace)
      case Failed(err, rest) => Run(s.(errno := err), t0, rest, mem, status)
      case Received(m, rest) =>
        var e := Handle(s.active, mem, status, m.id, m.data);
        if e.exit then Outcome(Exited, Apply(s, e), rest)
        else Run(Apply(s, e), t0, rest, mem, status)
  }

  /** `msg_loop`: the reference `t0` is the tick count on entry, and it is never moved. */
  ghost function MsgLoopRun(s: Session, trace: seq<Sample>, mem: u32 -> byte, status: byte): Outcome
  {
    if trace == [] then Outcome(TraceEnded, s, trace) else Run(s, trace[0].tick, trace, mem, status)
  }

  predicate Wellformed(calls: seq<FlashCall>)
  {
    Safe(calls) && Bracketed(calls, false)
  }

  lemma WellformedConcat(a: seq<FlashCall>, b: seq<FlashCall>)
    requires Wellformed(a) && Wellformed(b)
    ensures Wellformed(a + b)
  {
    BracketedConcat(a, b, false);
    assert forall i :: 0 <= i < |b| ==> (a + b)[|a| + i] == b[i];
  }

  /**
   * A whole session keeps flash safe: every call the loop issues stays in
   * the application region, inside an unlock/lock window, and the
   * controller is left locked.
   */
  lemma {:induction false} RunKeepsFlashSafe(s: Session, t0: u32, trace: seq<Sample>, mem: u32 -> byte, status: byte)
    requires Wellformed(s.calls)
    ensures Wellformed(Run(s, t0, trace, mem, status).session.calls)
    decreases |trace|
  {
    if trace != [] && !(!s.active && Sub32(trace[0].tick, t0) > BOOT_TIMEOUT) {
      match Receive(trace)
      case Pending =>
      case Failed(err, rest) =>
        RunKeepsFlashSafe(s.(errno := err), t0, rest, mem, status);
      case Received(m, rest) =>
        var e := Handle(s.active, mem, status, m.id, m.data);
        WellformedConcat(s.calls, e.calls);
        RunKeepsFlashSafe(Apply(s, e), t0, rest, mem, status);
    }
  }

  /**
   * The loop ends only in two ways: the idle timeout, which is checked only
   * while unarmed (so the session is then unarmed), or BOOT_EXIT while armed,
   * whose reply [1] is the last thing written to the link.
   */
  lemma {:induction false} RunEndings(s: Session, t0: u32, trace: seq<Sample>, mem: u32 -> byte, status: byte)
    ensures var o := Run(s, t0, trace, mem, status);
      && (o.ending == TimedOut ==> !o.session.active && |o.rest| > 0 && Sub32(o.rest[0].tick, t0) > BOOT_TIMEOUT)
      && (o.ending == Exited ==> o.session.active && EndsWith(o.session.output, Emitted(MSG_ID_BOOT_RESPONSE, [1])))
    decreases |trace|
  {
    if trace != [] && !(!s.active && Sub32(trace[0].tick, t0) > BOOT_TIMEOUT) {
      match Receive(trace)
      case Pending =>
      case Failed(err, rest) =>
        RunEndings(s.(errno := err), t0, rest, mem, status);
      case Received(m, rest) =>
        var e := Handle(s.active, mem, status, m.id, m.data);
        if !e.exit {
          RunEndings(Apply(s, e), t0, rest, mem, status);
        }
    }
  }

  predicate EndsWith(s: seq<byte>, suffix: seq<byte>)
  {
    |suffix| <= |s| && s[|s| - |suffix|..] == suffix
  }

  /** No message `msg_recv` could return from any suffix of `trace` is a BOOT_ENTER. */
  ghost predicate NoEnter(trace: seq<Sample>)
  {
    forall i :: 0 <= i < |trace| ==> !Receive(trace[i..]).Received? || CommandOf(Receive(trace[i..]).msg.id) != BootEnter
  }

  /** What `msg_recv` leaves unread keeps that property. */
  lemma NoEnterRest(trace: seq<Sample>, rest: seq<Sample>)
    requires NoEnter(trace) && |rest| < |trace| && rest == trace[|trace| - |rest|..]
    ensures NoEnter(rest)
  {
    forall i | 0 <= i < |rest|
      ensures !Receive(rest[i..]).Received? || CommandOf(Receive(rest[i..]).msg.id) != BootEnter
    {
      assert rest[i..] == trace[|trace| - |rest| + i..];
    }
  }

  /**
   * A session that stays unarmed never touches flash and sends no reply:
   * while the flag is clear and no BOOT_ENTER arrives, the loop only waits.
   */
  lemma {:induction false} UnarmedRunIsSilent(s: Session, t0: u32, trace: seq<Sample>, mem: u32 -> byte, status: byte)
    requires !s.active && NoEnter(trace)
    ensures var o := Run(s, t0, trace, mem, status);
      o.session.calls == s.calls && o.session.output == s.output && !o.session.active && o.ending != Exited
    decreases |trace|
  {
    if trace != [] && Sub32(trace[0].tick, t0) <= BOOT_TIMEOUT {
      var r := Receive(trace);
      if !r.Pending? {
        NoEnterRest(trace, r.rest);
        if r.Received? {
          assert trace[0..] == trace;
          assert Apply(s, Handle(s.active, mem, status, r.msg.id, r.msg.data)) == s;
          UnarmedRunIsSilent(s, t0, r.rest, mem, status);
        } else {
          UnarmedRunIsSilent(s.(errno := r.err), t0, r.rest, mem, status);
        }
      }
    }
  }

  // -------------------------------------------------------- the bootloader

  class Bootloader {
    /** The global `active`. */
    var active: bool
    const transport: Transport
    const flash: FlashController
    /** Flash and RAM as the CPU reads them. */
    const mem: u32 -> byte

    ghost predicate Valid()
      reads this, transport
    {
      transport.Valid()
    }

    /** The state `msg_loop` changes, as a session. */
    ghost function State(): Session
      reads this, transport, transport.link, flash
    {
      Session(active, transport.errno, flash.calls, transport.link.output)
    }

    constructor (transport: Transport, flash: FlashController, mem: u32 -> byte)
      requires transport.Valid()
      ensures Valid() && !active
      ensures this.transport == transport && this.flash == flash && this.mem == mem
    {
      active := false;
      this.transport := transport;
      this.flash := flash;
      this.mem := mem;
    }

    method HandleBootEnter(d: seq<byte>)
      requires Valid()
      modifies this`active, transport`errno, transport.txBuf, transport.link`output
      ensures State() == Apply(old(State()), EnterEffect(d))
    {
      if Magic(d) == BOOT_MAGIC {
        active := true;
      } else {
        active := false;
      }
      SendResponse(transport, Some([if active then 1 else 0]), 1);
    }

    method HandleBootReadData(d: seq<byte>)
      requires Valid() && active
      modifies transport`errno, transport.txBuf, transport.link`output
      ensures State() == Apply(old(State()), ReadEffect(mem, d))
    {
      SendResponse(transport, ReadSource(mem, Address(d), ReadLength(d)), ReadLength(d));
    }

    method HandleBootVerify(d: seq<byte>)
      requires Valid() && active
      modifies transport`errno, transport.txBuf, transport.link`output
      ensures State() == Apply(old(State()), VerifyEffect(mem, d))
    {
      var crc := CRC32(Bytes(mem, Address(d), VerifyLength(d)));
      SendResponse(transport, Some(LE32(crc)), 4);
    }

    /** `handle_boot_write_data`, with the corrected range check. */
    method HandleBootWriteData(d: seq<byte>)
      requires Valid() && active
      modifies flash`calls, transport`errno, transport.txBuf, transport.link`output
      ensures State() == Apply(old(State()), WriteEffect(flash.status, d))
    {
      WriteChecked(d);
      SendResponse(transport, Some([flash.status]), 1);
    }

    /** The range check of `handle_boot_write_data` (corrected) and, when it holds, the programming. */
    method WriteChecked(d: seq<byte>)
      requires Valid()
      modifies flash`calls
      ensures flash.calls == old(flash.calls) + WritePlan(d)
    {
      var addr := Address(d);
      var len := WriteLength(d);
      WritePlanCases(d);
      if WriteGuard(addr, len) {
        ProgramData(addr, len, d);
      }
    }

    /** The unlock, the `FLASH_ProgramWord` loop and the lock of `handle_boot_write_data`. */
    method ProgramData(addr: u32, len: u32, d: seq<byte>)
      requires WriteGuard(addr, len)
      modifies flash`calls
      ensures flash.calls == old(flash.calls) + [Unlock] + ProgramWords(addr, d, NumWords(len)) + [Lock]
    {
      flash.Unlock();
      var i := 0;
      ghost var k := 0;
      while i < len
        invariant i == 4 * k && 4 * k <= len + 3
        invariant flash.calls == old(flash.calls) + [Unlock] + ProgramWords(addr, d, k)
      {
        flash.ProgramWord(Wrap32(addr + i), Field32(d, 4 + i));
        assert ProgramWords(addr, d, k + 1) == ProgramWords(addr, d, k) + [ProgramWord(Wrap32(addr + i), Field32(d, 4 + i))];
        i := i + 4;
        k := k + 1;
      }
      assert k == NumWords(len);
      flash.Lock();
    }

    /** `handle_boot_erase_sector`, with the corrected sector check. */
    method HandleBootEraseSector(d: seq<byte>)
      requires Valid() && active
      modifies flash`calls, transport`errno, transport.txBuf, transport.link`output
      ensures State() == Apply(old(State()), EraseEffect(mem, flash.status, d))
    {
      EraseChecked(SectorIndex(d));
      SendResponse(transport, Some([flash.status]), 1);
    }

    /** The sector check of `handle_boot_erase_sector` (corrected), the empty check and, when needed, the erase. */
    method EraseChecked(sector: byte)
      requires Valid()
      modifies flash`calls
      ensures flash.calls == old(flash.calls) + ErasePlan(mem, sector)
    {
      if EraseGuard(sector) {
        var empty, _ := SectorEmptyCheck(mem, sector);
        if !empty {
          flash.Unlock();
          flash.EraseSector(sector * 8);
          flash.Lock();
        }
      }
    }

    method HandleBootExit()
      requires Valid() && active
      modifies transport`errno, transport.txBuf, transport.link`output
      ensures State() == Apply(old(State()), ExitEffect())
    {
      SendResponse(transport, Some([1]), 1);
    }

    /** The `if` and `switch` of `msg_loop` for one received message; true when the loop is to return. */
    method Dispatch(m: Message) returns (exit: bool)
      requires Valid()
      modifies this`active, flash`calls, transport`errno, transport.txBuf, transport.link`output
      ensures var e := Handle(old(active), mem, flash.status, m.id, m.data);
        State() == Apply(old(State()), e) && exit == e.exit
    {
      exit := false;
      if m.id == MSG_ID_BOOT_ENTER {
        HandleBootEnter(m.data);
      } else if active {
        if m.id == MSG_ID_BOOT_READ_DATA {
          HandleBootReadData(m.data);
        } else if m.id == MSG_ID_BOOT_VERIFY {
          HandleBootVerify(m.data);
        } else if m.id == MSG_ID_BOOT_WRITE_DATA {
          HandleBootWriteData(m.data);
        } else if m.id == MSG_ID_BOOT_ERASE_SECTOR {
          HandleBootEraseSector(m.data);
        } else if m.id == MSG_ID_BOOT_EXIT {
          HandleBootExit();
          exit := true;
        }
      }
    }

    /**
     * `msg_loop`: waits for commands until the idle timeout (only while
     * unarmed) or BOOT_EXIT, and reports which ended it.
     */
    method MsgLoop() returns (ending: Ending)
      requires Valid()
      modifies this`active, flash`calls, transport`errno, transport.rxBuf, transport.txBuf
      modifies transport.link`output, transport.link`input
      ensures var o := MsgLoopRun(old(State()), old(transport.link.input), mem, flash.status);
        ending == o.ending && State() == o.session && transport.link.input == o.rest
    {
      var link := transport.link;
      if link.input == [] {
        return TraceEnded;
      }
      var t0 := link.Now();
      ghost var goal := Run(State(), t0, link.input, mem, flash.status);
      while true
        invariant Valid()
        invariant Run(State(), t0, link.input, mem, flash.status) == goal
        decreases |link.input|
      {
        if link.input == [] {
          return TraceEnded;
        }
        if !active && Sub32(link.Now(), t0) > BOOT_TIMEOUT {
          return TimedOut;
        }
        if Receive(link.input).Pending? {
          return TraceEnded;
        }
        ghost var before := State();
        var len, msg := transport.Recv();
        if len < 0 {
          assert State() == before.(errno := transport.errno);
          continue;
        }
        var exit := Dispatch(msg);
        if exit {
          return Exited;
        }
      }
    }
  }
}
