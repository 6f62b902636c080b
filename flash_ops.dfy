/**
 * The flash operations of the WRITE_DATA and ERASE_SECTOR handlers
 * (main.c): the vendor flash controller as a stub that records each call it
 * receives, the range checks that decide whether the handlers program or
 * erase, and the exact call sequence each handler issues. The checks are
 * modelled twice: as written, and corrected so that no call can leave the
 * application region; the handlers use the corrected checks.
 */
module FlashOps {
  import opened Machine
  import opened FlashMap
  import opened Commands

  /** A call into the vendor flash driver. */
  datatype FlashCall =
    | Unlock
    | Lock
    | ProgramWord(addr: u32, data: u32)
    | EraseSector(code: u32)   // FLASH_Sector_N, i.e. N << 3

  /**
   * The flash controller: the calls it has received, in order, and the status
   * `FLASH_GetStatus()` reports. The stub does not change the status and does
   * not change memory.
   */
  class FlashController {
    var calls: seq<FlashCall>
    var status: byte

    constructor (status: byte)
      ensures calls == [] && this.status == status
    {
      calls := [];
      this.status := status;
    }

    method Unlock()
      modifies this`calls
      ensures calls == old(calls) + [FlashCall.Unlock]
    {
      calls := calls + [FlashCall.Unlock];
    }

    method Lock()
      modifies this`calls
      ensures calls == old(calls) + [FlashCall.Lock]
    {
      calls := calls + [FlashCall.Lock];
    }

    method ProgramWord(addr: u32, data: u32)
      modifies this`calls
      ensures calls == old(calls) + [FlashCall.ProgramWord(addr, data)]
    {
      calls := calls + [FlashCall.ProgramWord(addr, data)];
    }

    method EraseSector(code: u32)
      modifies this`calls
      ensures calls == old(calls) + [FlashCall.EraseSector(code)]
    {
      calls := calls + [FlashCall.EraseSector(code)];
    }
  }

  // ------------------------------------------------------------ safety rules

  /** A call that cannot touch anything outside the application region [APP_START, FLASH_END). */
  predicate SafeCall(c: FlashCall)
  {
    match c
    case ProgramWord(a, _) => APP_START <= a && a + 4 <= FLASH_END
    case EraseSector(code) => code % 8 == 0 && 4 <= code / 8 < SECTOR_COUNT
    case _ => true
  }

  predicate Safe(calls: seq<FlashCall>)
  {
    forall i :: 0 <= i < |calls| ==> SafeCall(calls[i])
  }

  /** An erase call that is safe targets one whole sector of the application region. */
  lemma SafeEraseInApp(code: u32)
    requires SafeCall(EraseSector(code))
    ensures APP_START <= SECTOR_MAP[code / 8].addr && SectorEnd(code / 8) <= FLASH_END
  {
    SectorBounds(code / 8);
  }

  /**
   * Calls that keep the controller locked except between an unlock and the
   * next lock, with every program and erase inside such a window; `open`
   * says whether the controller is unlocked before them. The sequence must
   * end locked.
   */
  predicate Bracketed(calls: seq<FlashCall>, open: bool)
    decreases |calls|
  {
    if calls == [] then !open
    else match calls[0]
      case Unlock => !open && Bracketed(calls[1..], true)
      case Lock => open && Bracketed(calls[1..], false)
      case _ => open && Bracketed(calls[1..], open)
  }

  lemma {:induction false} BracketedConcat(a: seq<FlashCall>, b: seq<FlashCall>, open: bool)
    requires Bracketed(a, open) && Bracketed(b, false)
    ensures Bracketed(a + b, open)
    decreases |a|
  {
    if a == [] {
      assert a + b == b;
    } else {
      assert (a + b)[0] == a[0] && (a + b)[1..] == a[1..] + b;
      var next := match a[0] case Unlock => true case Lock => false case _ => open;
      BracketedConcat(a[1..], b, next);
    }
  }

  /** Programs and erases only, between an unlock and a lock, are properly bracketed. */
  lemma {:induction false} WindowBracketed(ops: seq<FlashCall>, open: bool)
    requires open
    requires forall i :: 0 <= i < |ops| ==> ops[i].ProgramWord? || ops[i].EraseSector?
    ensures Bracketed(ops + [Lock], open)
    decreases |ops|
  {
    if ops == [] {
      assert ([] + [Lock])[1..] == [];
    } else {
      assert (ops + [Lock])[1..] == ops[1..] + [Lock];
      WindowBracketed(ops[1..], open);
    }
  }

  lemma UnlockedWindow(ops: seq<FlashCall>)
    requires forall i :: 0 <= i < |ops| ==> ops[i].ProgramWord? || ops[i].EraseSector?
    ensures Bracketed([Unlock] + ops + [Lock], false)
  {
    WindowBracketed(ops, true);
    assert ([Unlock] + ops + [Lock])[1..] == ops + [Lock];
  }

  // ----------------------------------------------------------- WRITE_DATA

  /** Iterations of `for (i = 0; i < len; i += 4)`: one per started word. */
  function NumWords(len: u32): nat
  {
    (len + 3) / 4
  }

  /** The first `n` words of the write loop: word k of the data goes to `addr + 4k`. */
  function ProgramWords(addr: u32, d: seq<byte>, n: nat): (ops: seq<FlashCall>)
    ensures |ops| == n
  {
    seq(n, k requires 0 <= k < n => ProgramWord(Wrap32(addr + 4 * k), Field32(d, 4 + 4 * k)))
  }

  /** The range check of `handle_boot_write_data` as written: the sum `addr + len` wraps to 32 bits. */
  predicate WriteGuardAsWritten(addr: u32, len: u32)
  {
    addr >= APP_START && Wrap32(addr + len) < FLASH_END
  }

  /**
   * The corrected range check: the written test with its sum taken without
   * wrap-around, and the words the loop programs, rounded up to whole words,
   * ending by FLASH_END.
   */
  predicate WriteGuard(addr: u32, len: u32)
  {
    addr >= APP_START && addr + len < FLASH_END && addr + 4 * NumWords(len) <= FLASH_END
  }

  /** Every word programmed under the corrected check lies in the application region. */
  lemma WriteGuardSafe(addr: u32, len: u32, d: seq<byte>)
    requires WriteGuard(addr, len)
    ensures Safe(ProgramWords(addr, d, NumWords(len)))
  {
  }

  /**
   * The corrected check admits exactly the requests the written check admits
   * and whose programmed words all lie in the application region.
   */
  lemma WriteGuardExact(addr: u32, len: u32, d: seq<byte>)
    ensures WriteGuard(addr, len) <==> WriteGuardAsWritten(addr, len) && Safe(ProgramWords(addr, d, NumWords(len)))
  {
    var n := NumWords(len);
    var ops := ProgramWords(addr, d, n);
    if WriteGuard(addr, len) {
      WriteGuardSafe(addr, len, d);
    } else if WriteGuardAsWritten(addr, len) {
      // Some word the loop programs reaches past FLASH_END.
      assert FLASH_END < addr + 4 * n;
      var k := if addr >= FLASH_END then 0 else (FLASH_END - addr) / 4;
      assert k < n && addr + 4 * k < 0x1_0000_0000;
      assert ops[k] == ProgramWord(addr + 4 * k, Field32(d, 4 + 4 * k));
      assert !SafeCall(ops[k]);
    }
  }

  /** The flash calls of `handle_boot_write_data` with the check `guard` decides. */
  function WritePlanWith(guarded: bool, d: seq<byte>): seq<FlashCall>
  {
    if guarded then [Unlock] + ProgramWords(Address(d), d, NumWords(WriteLength(d))) + [Lock] else []
  }

  /** The flash calls of WRITE_DATA, with the corrected check. */
  function WritePlan(d: seq<byte>): (calls: seq<FlashCall>)
    ensures calls != [] <==> WriteGuard(Address(d), WriteLength(d))
    ensures Safe(calls) && Bracketed(calls, false)
    ensures Safe(WritePlanAsWritten(d)) ==> calls == WritePlanAsWritten(d)
    ensures !Safe(WritePlanAsWritten(d)) ==> calls == []
  {
    WriteGuardExact(Address(d), WriteLength(d), d);
    WindowSafe(ProgramWords(Address(d), d, NumWords(WriteLength(d))));
    if WriteGuard(Address(d), WriteLength(d)) then
      WriteGuardSafe(Address(d), WriteLength(d), d);
      UnlockedWindow(ProgramWords(Address(d), d, NumWords(WriteLength(d))));
      WritePlanWith(true, d)
    else WritePlanWith(false, d)
  }

  /** The write plan by cases of the corrected check. */
  lemma WritePlanCases(d: seq<byte>)
    ensures WriteGuard(Address(d), WriteLength(d)) ==>
      WritePlan(d) == [Unlock] + ProgramWords(Address(d), d, NumWords(WriteLength(d))) + [Lock]
    ensures !WriteGuard(Address(d), WriteLength(d)) ==> WritePlan(d) == []
  {
  }

  /** The calls around an unlocked window are safe exactly when the window is. */
  lemma WindowSafe(ops: seq<FlashCall>)
    ensures Safe([Unlock] + ops + [Lock]) <==> Safe(ops)
  {
    var w := [Unlock] + ops + [Lock];
    assert forall i :: 0 <= i < |ops| ==> w[i + 1] == ops[i];
  }

  /** The flash calls of WRITE_DATA, with the check as written. */
  function WritePlanAsWritten(d: seq<byte>): seq<FlashCall>
  {
    WritePlanWith(WriteGuardAsWritten(Address(d), WriteLength(d)), d)
  }

  /** A payload too short to hold the address reads an address below APP_START, so nothing is programmed. */
  lemma ShortWriteIgnored(d: seq<byte>)
    requires |d| < 4
    ensures WritePlan(d) == [] && WritePlanAsWritten(d) == []
  {
    Field32Truncated(d, 0);
  }

  /**
   * The words programmed carry the payload: byte j of the data, for every
   * j < len, is byte j % 4 of word j / 4.
   */
  lemma WriteWordsCarryData(d: seq<byte>, j: nat)
    requires 4 + j < |d|
    ensures var w := Field32(d, 4 + 4 * (j / 4));
      LE32(w)[j % 4] == d[4 + j]
  {
    var off := 4 + 4 * (j / 4);
    var b := [PayloadByte(d, off), PayloadByte(d, off + 1), PayloadByte(d, off + 2), PayloadByte(d, off + 3)];
    FromLE32RoundTrip(b);
    assert off + j % 4 == 4 + j;
  }

  /**
   * Finding: the written check admits an address near the top of the 32-bit
   * space. WRITE_DATA for 0xFFFFFFF0 with 16 data bytes passes it (the sum
   * wraps to 0) and programs four words at 0xFFFFFFF0..0xFFFFFFFF; the
   * corrected check refuses it.
   */
  lemma WriteWrapAdmitsTopOfMemory()
    ensures var d := LE32(0xFFFF_FFF0) + seq(16, i => 0);
      && WriteGuardAsWritten(Address(d), WriteLength(d))
      && WritePlanAsWritten(d)[1] == ProgramWord(0xFFFF_FFF0, 0)
      && !Safe(WritePlanAsWritten(d))
      && WritePlan(d) == []
  {
    var d := LE32(0xFFFF_FFF0) + seq(16, i => 0);
    Field32Received(d, 0);
    LE32RoundTrip(0xFFFF_FFF0);
    assert d[0..4] == LE32(0xFFFF_FFF0);
    assert Address(d) == 0xFFFF_FFF0;
    assert Field32(d, 4) == 0;
    assert WritePlanAsWritten(d)[1] == ProgramWord(0xFFFF_FFF0, 0);
    assert !SafeCall(WritePlanAsWritten(d)[1]);
  }

  /**
   * Finding: the written check compares `addr + len`, but the loop programs
   * whole words. WRITE_DATA for 0x080FFFFE with one data byte passes it, and
   * the word programmed at 0x080FFFFE extends two bytes past FLASH_END; the
   * corrected check refuses it.
   */
  lemma WritePartialWordPassesEnd()
    ensures var d := LE32(0x080F_FFFE) + [0x5A];
      && WriteGuardAsWritten(Address(d), WriteLength(d))
      && WritePlanAsWritten(d)[1] == ProgramWord(0x080F_FFFE, 0x5A)
      && !Safe(WritePlanAsWritten(d))
      && WritePlan(d) == []
  {
    var d := LE32(0x080F_FFFE) + [0x5A];
    Field32Received(d, 0);
    LE32RoundTrip(0x080F_FFFE);
    assert d[0..4] == LE32(0x080F_FFFE);
    assert Address(d) == 0x080F_FFFE;
    assert Field32(d, 4) == 0x5A;
    assert WritePlanAsWritten(d)[1] == ProgramWord(0x080F_FFFE, 0x5A);
    assert !SafeCall(WritePlanAsWritten(d)[1]);
  }

  // ---------------------------------------------------------- ERASE_SECTOR

  /** The check of `handle_boot_erase_sector` as written: `sector > 4 || sector < 11`. */
  predicate EraseGuardAsWritten(sector: int)
  {
    sector > 4 || sector < 11
  }

  /**
   * Finding: the written check holds for every sector number, so it admits
   * the boot sector 0 and indices past the end of the sector table.
   */
  lemma {:induction false} EraseGuardAdmitsAll(sector: int)
    ensures EraseGuardAsWritten(sector)
    ensures EraseGuardAsWritten(0) && SectorEnd(0) <= APP_START
    ensures EraseGuardAsWritten(SECTOR_COUNT) && !(SECTOR_COUNT < |SECTOR_MAP|)
  {
    SectorMapLayout();
  }

  /** The corrected check: the sector is one of the table's application sectors, 4 to 11. */
  predicate EraseGuard(sector: int)
  {
    4 <= sector < SECTOR_COUNT
  }

  /** The corrected check admits exactly the sectors of the table that lie in the application region. */
  lemma EraseGuardExact(sector: int)
    ensures EraseGuard(sector) <==>
      0 <= sector < SECTOR_COUNT && SECTOR_MAP[sector].addr >= APP_START && SectorEnd(sector) <= FLASH_END
  {
    if 0 <= sector < SECTOR_COUNT {
      SectorBounds(sector);
    }
  }

  /**
   * The flash calls of ERASE_SECTOR: none when the check fails or the
   * sector already reads erased; otherwise one erase of `sector << 3`
   * between an unlock and a lock.
   */
  ghost function ErasePlan(mem: u32 -> byte, sector: int): (calls: seq<FlashCall>)
    ensures calls != [] <==> EraseGuard(sector) && !SectorEmpty(mem, sector)
    ensures Safe(calls) && Bracketed(calls, false)
    ensures calls != [] ==> |calls| == 3 && calls[1] == EraseSector(sector * 8)
  {
    if EraseGuard(sector) && !SectorEmpty(mem, sector) then
      UnlockedWindow([EraseSector(sector * 8)]);
      [Unlock, EraseSector(sector * 8), Lock]
    else []
  }
}
