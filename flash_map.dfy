/**
 * The memory map of the target (main.c): the flash and RAM ranges, the
 * application base, the twelve erase sectors of the flash array, the
 * emptiness scan of one sector and the sanity check `start_app` makes
 * before handing control to the application.
 */
module FlashMap {
  import opened Machine

  const FLASH_START: u32 := 0x0800_0000
  const FLASH_END: u32 := 0x0810_0000
  const APP_START: u32 := FLASH_START + 0x1_0000
  const RAM_START: u32 := 0x2000_0000
  const RAM_END: u32 := 0x2002_0000
  /** Idle window of the command loop while no session is armed, in ticks (ms). */
  const BOOT_TIMEOUT: u32 := 2000
  /** The key a BOOT_ENTER message must carry to arm the session. */
  const BOOT_MAGIC: u32 := 0xB007_10AD

  /** The erased value of a flash word. */
  const ERASED_WORD: u32 := 0xFFFF_FFFF

  /** One entry of `sector_map`. */
  datatype Sector = Sector(addr: u32, size: u32)

  const SECTOR_COUNT: nat := 12

  /** `sector_map`: four 16 KiB boot sectors, one 64 KiB sector, seven 128 KiB sectors. */
  const SECTOR_MAP: seq<Sector> := [
    Sector(0x0800_0000, 0x4000),
    Sector(0x0800_4000, 0x4000),
    Sector(0x0800_8000, 0x4000),
    Sector(0x0800_C000, 0x4000),
    Sector(0x0801_0000, 0x1_0000),
    Sector(0x0802_0000, 0x2_0000),
    Sector(0x0804_0000, 0x2_0000),
    Sector(0x0806_0000, 0x2_0000),
    Sector(0x0808_0000, 0x2_0000),
    Sector(0x080A_0000, 0x2_0000),
    Sector(0x080C_0000, 0x2_0000),
    Sector(0x080E_0000, 0x2_0000)
  ]

  /** First address past sector `s`. */
  function SectorEnd(s: nat): int
    requires s < SECTOR_COUNT
  {
    SECTOR_MAP[s].addr + SECTOR_MAP[s].size
  }

  /**
   * The table has twelve entries, covers exactly [FLASH_START, FLASH_END)
   * without gaps or overlap, ascends, every size is a whole number of words,
   * and the application region starts at the fifth sector.
   */
  lemma SectorMapLayout()
    ensures |SECTOR_MAP| == SECTOR_COUNT
    ensures SECTOR_MAP[0].addr == FLASH_START && SectorEnd(SECTOR_COUNT - 1) == FLASH_END
    ensures forall s :: 0 <= s < SECTOR_COUNT - 1 ==> SectorEnd(s) == SECTOR_MAP[s + 1].addr
    ensures forall s :: 0 <= s < SECTOR_COUNT ==> SECTOR_MAP[s].size > 0 && SECTOR_MAP[s].size % 4 == 0
    ensures SECTOR_MAP[4].addr == APP_START
  {
  }

  /** Sector addresses ascend strictly, so each address of flash lies in exactly one sector. */
  lemma {:induction false} SectorsAscend(s: nat, t: nat)
    requires s < t < SECTOR_COUNT
    ensures SectorEnd(s) <= SECTOR_MAP[t].addr
    decreases t - s
  {
    SectorMapLayout();
    if s + 1 < t {
      SectorsAscend(s + 1, t);
    }
  }

  /** What a scan of one sector relies on: a positive whole number of words, all below 2^32. */
  lemma SectorShape(s: nat)
    requires s < SECTOR_COUNT
    ensures SECTOR_MAP[s].size > 0 && SECTOR_MAP[s].size % 4 == 0 && SECTOR_MAP[s].addr % 4 == 0
    ensures SectorEnd(s) <= FLASH_END
  {
    SectorBounds(s);
    SectorMapLayout();
  }

  /** Every sector lies inside the flash array; the sectors from the fifth on make up the application region. */
  lemma SectorBounds(s: nat)
    requires s < SECTOR_COUNT
    ensures FLASH_START <= SECTOR_MAP[s].addr < SectorEnd(s) <= FLASH_END
    ensures s >= 4 <==> SECTOR_MAP[s].addr >= APP_START
  {
    SectorMapLayout();
    if s > 0 {
      SectorsAscend(0, s);
    }
    if s < SECTOR_COUNT - 1 {
      SectorsAscend(s, SECTOR_COUNT - 1);
    }
    if s < 4 {
      SectorsAscend(s, 4);
    } else if s > 4 {
      SectorsAscend(4, s);
    }
  }

  // ------------------------------------------------------------ memory words

  /** The 32-bit word a little-endian load at `a` reads from `mem`. */
  function WordAt(mem: u32 -> byte, a: u32): u32
  {
    FromLE32([mem(a), mem(Wrap32(a + 1)), mem(Wrap32(a + 2)), mem(Wrap32(a + 3))])
  }

  /** `len` bytes of memory from `a` on, the address wrapping as a `uint32_t` pointer would. */
  function Bytes(mem: u32 -> byte, a: u32, len: nat): (b: seq<byte>)
    ensures |b| == len
    ensures forall i :: 0 <= i < len ==> b[i] == mem(Wrap32(a + i))
  {
    seq<byte>(len, i requires 0 <= i < len => mem(Wrap32(a + i)))
  }

  /** The k-th word from `base` on. */
  function RegionWord(mem: u32 -> byte, base: u32, k: nat): u32
  {
    WordAt(mem, Wrap32(base + 4 * k))
  }

  /** The `n` words from `base` on all read 0xFFFFFFFF. */
  ghost predicate WordsErased(mem: u32 -> byte, base: u32, n: nat)
  {
    forall k :: 0 <= k < n ==> RegionWord(mem, base, k) == ERASED_WORD
  }

  /** Sector `s` reads erased: every word of it is 0xFFFFFFFF. */
  ghost predicate SectorEmpty(mem: u32 -> byte, s: nat)
    requires s < SECTOR_COUNT
  {
    WordsErased(mem, SECTOR_MAP[s].addr, SECTOR_MAP[s].size / 4)
  }

  /** A sector reads erased exactly when every byte in it is 0xFF. */
  lemma SectorEmptyBytes(mem: u32 -> byte, s: nat)
    requires s < SECTOR_COUNT
    ensures SectorEmpty(mem, s) <==>
      forall a: u32 :: SECTOR_MAP[s].addr <= a < SectorEnd(s) ==> mem(a) == 0xFF
  {
    if SectorEmpty(mem, s) {
      ErasedSectorBytes(mem, s);
    } else {
      UnerasedSectorByte(mem, s);
    }
  }

  lemma ErasedSectorBytes(mem: u32 -> byte, s: nat)
    requires s < SECTOR_COUNT && SectorEmpty(mem, s)
    ensures forall a: u32 :: SECTOR_MAP[s].addr <= a < SectorEnd(s) ==> mem(a) == 0xFF
  {
    SectorShape(s);
    var base, size := SECTOR_MAP[s].addr, SECTOR_MAP[s].size;
    forall a: u32 | base <= a < base + size
      ensures mem(a) == 0xFF
    {
      var k, j := (a - base) / 4, (a - base) % 4;
      var w := [mem(base + 4 * k), mem(base + 4 * k + 1), mem(base + 4 * k + 2), mem(base + 4 * k + 3)];
      assert RegionWord(mem, base, k) == FromLE32(w) == ERASED_WORD;
      AllOnesWord(w);
      assert a == base + 4 * k + j;
      assert mem(a) == w[j];
    }
  }

  lemma UnerasedSectorByte(mem: u32 -> byte, s: nat)
    requires s < SECTOR_COUNT && !SectorEmpty(mem, s)
    ensures exists a: u32 :: SECTOR_MAP[s].addr <= a < SectorEnd(s) && mem(a) != 0xFF
  {
    SectorShape(s);
    var base, size := SECTOR_MAP[s].addr, SECTOR_MAP[s].size;
    var k :| 0 <= k < size / 4 && RegionWord(mem, base, k) != ERASED_WORD;
    var w := [mem(base + 4 * k), mem(base + 4 * k + 1), mem(base + 4 * k + 2), mem(base + 4 * k + 3)];
    assert RegionWord(mem, base, k) == FromLE32(w);
    AllOnesWord(w);
    var j :| 0 <= j < 4 && w[j] != 0xFF;
    var a: u32 := base + 4 * k + j;
    assert mem(a) != 0xFF;
  }

  /** Every address in `probed` starts a word that lies inside [lo, hi). */
  ghost predicate WordsWithin(probed: seq<u32>, lo: int, hi: int)
  {
    forall j :: 0 <= j < |probed| ==> lo <= probed[j] && probed[j] + 4 <= hi
  }

  /**
   * `sector_empty_check`: scans sector `s` one word at a time and stops at
   * the first word that is not erased. `probed` lists the addresses it loaded.
   */
  method SectorEmptyCheck(mem: u32 -> byte, s: nat) returns (empty: bool, ghost probed: seq<u32>)
    requires s < SECTOR_COUNT
    ensures empty <==> SectorEmpty(mem, s)
    ensures WordsWithin(probed, SECTOR_MAP[s].addr, SectorEnd(s))
  {
    SectorShape(s);
    var addr: u32 := SECTOR_MAP[s].addr;
    var size: u32 := SECTOR_MAP[s].size;
    ghost var base, words := addr, size / 4;
    assert SectorEmpty(mem, s) == WordsErased(mem, base, words);
    assert SectorEnd(s) == base + size;
    probed := [];
    var i := 0;
    ghost var n := 0;
    while i < size
      invariant 0 <= n <= words && i == 4 * n
      invariant addr == base + i
      invariant WordsErased(mem, base, n)
      invariant WordsWithin(probed, base, base + size)
    {
      probed := probed + [addr];
      assert RegionWord(mem, base, n) == WordAt(mem, addr);
      if WordAt(mem, addr) != ERASED_WORD {
        return false, probed;
      }
      addr := addr + 4;
      i := i + 4;
      n := n + 1;
    }
    assert n == words;
    return true, probed;
  }

  // -------------------------------------------------------------- hand-off

  /** How `start_app` ends: the jump with the loaded stack pointer and entry point, or one of its refusals. */
  datatype Launch =
    | Jump(stack: u32, entry: u32)
    | StackOutOfBounds(stack: u32)
    | EntryOutOfBounds(entry: u32)

  /** Entry points `start_app` accepts: inside the flash array, or inside the system memory at 0x1FFF0000. */
  predicate EntryInBounds(entry: u32)
  {
    (FLASH_START <= entry < FLASH_END) || (0x1FFF_0000 <= entry < 0x1FFF_8000)
  }

  /**
   * The checks of `start_app` on the vector table at `addr`: the first word
   * is the initial stack pointer, the second the entry point. The jump is
   * reached only when the stack pointer lies in [RAM_START, RAM_END] (the top
   * included) and the entry point is in bounds; the stack is checked first.
   */
  function StartApp(mem: u32 -> byte, addr: u32): (r: Launch)
    ensures r.Jump? <==>
      RAM_START <= WordAt(mem, addr) <= RAM_END && EntryInBounds(WordAt(mem, Wrap32(addr + 4)))
    ensures r.Jump? ==> r == Jump(WordAt(mem, addr), WordAt(mem, Wrap32(addr + 4)))
    ensures r.StackOutOfBounds? <==> !(RAM_START <= WordAt(mem, addr) <= RAM_END)
  {
    var stack := WordAt(mem, addr);
    var entry := WordAt(mem, Wrap32(addr + 4));
    if stack < RAM_START || stack > RAM_END then StackOutOfBounds(stack)
    else if !EntryInBounds(entry) then EntryOutOfBounds(entry)
    else Jump(stack, entry)
  }

  /** Erased flash at the application base never passes the check: its stack word is 0xFFFFFFFF. */
  lemma ErasedAppNeverStarts(mem: u32 -> byte)
    requires forall a: u32 :: SECTOR_MAP[4].addr <= a < SectorEnd(4) ==> mem(a) == 0xFF
    ensures StartApp(mem, APP_START) == StackOutOfBounds(ERASED_WORD)
  {
    SectorMapLayout();
    var w := [mem(APP_START), mem(APP_START + 1), mem(APP_START + 2), mem(APP_START + 3)];
    AllOnesWord(w);
  }
}
