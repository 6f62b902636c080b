# Update bootloader: message transport and command loop

This project models the firmware side of the serial update bootloader of the
drquad32 flight controller (`Bootloader/msg_packet.c` and `Bootloader/main.c`)
and proves properties of it.

- **Transport** (`msg_packet.dfy`, module `MsgPacket`). `msg_recv` polls the
  UART one result at a time into the fixed `rx_buf`. A 0x00 ends the frame;
  EMSG_TIMEOUT and EMSG_TOO_LONG end it early. The frame is then COBS/R
  decoded, checked for the 4-byte header (EMSG_TOO_SHORT) and checked against
  the CRC16 of `msg_calc_crc` (EMSG_CRC). `msg_send` stamps the CRC, stuffs
  `[crc|id|payload]` into `tx_buf`, appends 0x00 and writes the buffer. The
  class `Transport` holds both buffers, the link and `errno`. Its methods are
  proved equal to the functions `Receive` and `Wire`. The lemmas about those
  functions state the framing, timing and round-trip properties.
- **Replies** (`replies.dfy`). `send_response`, `send_shell_to_pc`, and the
  `todo` loop of `msg_printf` that cuts console text into messages.
- **Memory map** (`flash_map.dfy`). The twelve-sector `sector_map`,
  `sector_empty_check` as a word-scanning loop, and the stack and entry-point
  checks of `start_app`.
- **Command payloads** (`commands.dfy`). The fields the handlers read out of
  the zero-initialised `msg_generic` buffer.
- **Flash operations** (`flash_ops.dfy`). The vendor flash controller is a
  stub object that records unlock, program, erase and lock calls and holds a
  status. The write and erase range checks appear twice: as written and
  corrected. The call sequences of the write and erase handlers are given.
  `Safe` and `Bracketed` are the safety rules: every program and erase call
  stays in the application region, inside an unlock/lock window.
- **Command loop** (`boot.dfy`). The armed flag, the handlers and the
  `msg_loop` dispatch. `Handle` gives the effect of one message and `Run` the
  effect of a whole session. The class `Bootloader` runs the handlers, the
  dispatch and the loop over a `Transport` and a `FlashController`. Its
  methods are proved to have exactly those effects.

The UART and the millisecond tick counter form a finite trace of
`Sample(c, tick)`. Each sample is one `uart_getc()` result and the tick count
read in the same pass. A read of `tickcount` on entry to `msg_recv` or
`msg_loop` sees the tick of the next sample. Flash and RAM are a function from
address to byte.

Some collaborators are not part of this model: the COBS/R codec, the
CRC16/CRC32 engines, `MSG_MAX_DATA_SIZE`, the `MSG_ID_*` values,
`COBSR_ENCODE_DST_BUF_LEN_MAX` and the size of a console message. They are
constants without definitions (`external.dfy`). Only three things are known
about the codec:

- its encoded output fits the destination and holds no 0x00;
- decoding an encoding gives the source back when the source fits;
- decoded output fits its destination.

Two details of the code shape the model:

- **Idle window.** `msg_loop` sets `t0` once on entry (`main.c:331`) and
  never moves it, so a slow stream of bytes does not extend the idle window
  (`main.c:336`). `Run` keeps `t0` fixed.
- **Controller status.** The write and erase handlers unlock and program or
  erase without testing `FLASH_GetStatus()` first (`main.c:278-285`,
  `main.c:298-307`); they only report it afterwards (`main.c:290`,
  `main.c:310`). The model issues its calls regardless of the status.

## Model

| member | source | states |
|---|---|---|
| Machine.Wrap32 | Bootloader/main.c:274 | a C conversion to `uint32_t` keeps in-range values and adds or subtracts 2^32 one range out |
| Machine.Sub32 | Bootloader/msg_packet.c:58 | `tickcount - t0` is the elapsed count, also across a counter wrap |
| MsgPacket.Frame | Bootloader/msg_packet.c:104-107 | the codec input is `crc`, `id` and the payload: 4 + `data_len` bytes |
| MsgPacket.UnframeFrame | Bootloader/msg_packet.c:71-89 | reading the header fields and payload back from a framed message gives that message |
| MsgPacket.FrameUnframe | Bootloader/msg_packet.c:84-89 | every decoded buffer of at least 4 bytes is the frame of the message read from it, with `data_len = out_len - 4` |
| MsgPacket.Wire | Bootloader/msg_packet.c:100-118 | when encoding into `sizeof(tx_buf) - 1` succeeds, the written bytes number at most MAX_BUF_LENGTH, end with one 0x00 and hold no other 0x00; they exist exactly when encoding succeeds |
| MsgPacket.Stored | Bootloader/msg_packet.c:39-48 | the stored bytes hold no 0x00 and number at most one per poll |
| MsgPacket.Gather | Bootloader/msg_packet.c:38-67 | the receive loop consumes at least one poll and leaves a suffix of the trace; a delimited frame fits `rx_buf`; it gives up only with EMSG_TIMEOUT or EMSG_TOO_LONG |
| MsgPacket.GatherDelimited | Bootloader/msg_packet.c:39-48 | a delimited frame ends at the first 0x00, which is not stored; the frame is exactly the positive polls before it, in order (a negative poll stores nothing) |
| MsgPacket.GatherAbandoned | Bootloader/msg_packet.c:58-66 | the loop gives up before any 0x00; EMSG_TOO_LONG only when `rx_buf` holds MAX_BUF_LENGTH bytes |
| MsgPacket.GatherTiming | Bootloader/msg_packet.c:35-61 | the budget runs from entry until the first byte is stored, then from that byte; every poll before the last is within PACKET_TIMEOUT, and EMSG_TIMEOUT is returned exactly when the last poll is over budget |
| MsgPacket.GatherCollects | Bootloader/msg_packet.c:47-56 | once the reference is set, non-zero bytes within budget are all stored, in order, until the 0x00 |
| MsgPacket.GatherFrame | Bootloader/msg_packet.c:38-67 | the polls of a stuffed frame and its 0x00, within budget of the first, are delimited to exactly the stuffed bytes |
| MsgPacket.DecodeFrame | Bootloader/msg_packet.c:69-96 | EMSG_COBSR iff decoding fails; EMSG_TOO_SHORT iff it yields fewer than 4 bytes; when it yields 4 bytes or more, the message is accepted iff its `crc` field equals `msg_calc_crc` (CRC16 of the id bytes and the payload), and the accepted message is the header fields and payload read from the decoded bytes; on success the decoded bytes are the message's frame and the payload fits; any other failure is EMSG_CRC |
| MsgPacket.Receive | Bootloader/msg_packet.c:33-97 | a delimited frame is received iff it decodes, as the decoded message, leaving the polls after the delimiter; a frame that does not decode fails with the decoder's error; an abandoned gather fails with its timeout or length error; a received message carries a matching CRC and a payload within MSG_MAX_DATA_SIZE; at least one poll is consumed |
| MsgPacket.SendThenReceive | Bootloader/msg_packet.c:33-121 | the bytes `msg_send` writes for a fitting message, polled back within PACKET_TIMEOUT of the first, make `msg_recv` return that message (same crc, id and payload) and nothing more is read |
| MsgPacket.Transport.constructor | Bootloader/msg_packet.c:16-17 | both buffers hold MAX_BUF_LENGTH bytes |
| MsgPacket.Transport.Recv | Bootloader/msg_packet.c:33-97 | the array loop consumes exactly the polls `Receive` does; on success it returns `data_len` and the message with `errno` untouched; on failure it returns -1 with `errno` set to the error |
| MsgPacket.Transport.Send | Bootloader/msg_packet.c:100-121 | stamps `msg_calc_crc`; on success returns `data_len` (not the wire length), writes the wire bytes to `tx_buf` and the link and leaves `errno`; on an encode failure returns -1, sets EMSG_COBSR and writes nothing |
| Replies.ResponseData | Bootloader/main.c:61-69 | the reply payload has `len` bytes: the source's bytes when it is non-null, and all 0 (the zero-initialised message) when it is null |
| Replies.SendResponse | Bootloader/main.c:61-72 | exactly one BOOT_RESPONSE message carrying `len` bytes from the source, or `len` zero bytes for a null source, is written; `errno` as `msg_send` leaves it |
| Replies.SendShellToPc | Bootloader/main.c:75-88 | sends the first `min(size, SHELL_TO_PC_DATA_SIZE)` bytes as one SHELL_TO_PC message and returns that count |
| Replies.ChunksRejoin | Bootloader/main.c:108-110 | the chunks the loop sends, concatenated, are the text |
| Replies.ChunksSized | Bootloader/main.c:79-80 | every chunk is non-empty and fits one message; every chunk but the last is full |
| Replies.ChunksCount | Bootloader/main.c:108-110 | the loop sends as many messages as the text needs and no more |
| Replies.ShellStep | Bootloader/main.c:110 | one pass of the loop shrinks `todo` and keeps the rest of the text owed, in order |
| Replies.Printf | Bootloader/main.c:92-113 | returns `n = min(|text|, 255)` and writes the console messages of the first `n` bytes, in order and nothing else |
| FlashMap.SectorMapLayout | Bootloader/main.c:42-55 | 12 entries from FLASH_START to FLASH_END, each ending where the next begins, sizes positive multiples of 4; entry 4 starts at APP_START |
| FlashMap.SectorsAscend | Bootloader/main.c:42-55 | sector addresses strictly ascend |
| FlashMap.SectorBounds | Bootloader/main.c:16-20 | every sector lies inside flash; a sector lies in the application region iff its index is at least 4 |
| FlashMap.SectorEmptyBytes | Bootloader/main.c:213-225 | a sector reads erased (every word 0xFFFFFFFF) iff every byte in it is 0xFF |
| FlashMap.SectorEmptyCheck | Bootloader/main.c:213-225 | returns true iff every word of the sector reads 0xFFFFFFFF; every word it loads lies inside the sector |
| FlashMap.StartApp | Bootloader/main.c:147-169 | the jump is reached iff `RAM_START <= stack <= RAM_END` (top included) and the entry lies in flash or in [0x1FFF0000, 0x1FFF8000); the stack is checked first; the jump uses the first two words at `addr` |
| FlashMap.ErasedAppNeverStarts | Bootloader/main.c:153-162 | an erased application region is refused for its stack pointer |
| Commands.Field32Received | Bootloader/main.c:273 | a field received whole carries exactly the bytes the host sent, lowest first |
| Commands.Field32Truncated | Bootloader/main.c:341-343 | a field cut short by `data_len` has the received bytes as its low bytes, in order, and 0 in every byte past them; with none received it is 0 |
| Commands.WriteLength | Bootloader/main.c:274 | `len = data_len - 4` for a payload of at least 4 bytes; otherwise it wraps to 2^32 + data_len - 4 |
| FlashOps.SafeEraseInApp | Bootloader/main.c:304 | a safe erase code `sector << 3` names a whole sector of the application region |
| FlashOps.WriteGuardSafe | Bootloader/main.c:278-283 | under the corrected check every programmed word lies in [APP_START, FLASH_END) |
| FlashOps.WriteGuardExact | Bootloader/main.c:278-283 | the corrected check admits a request iff the written check admits it and every word the loop programs lies in [APP_START, FLASH_END) |
| FlashOps.WritePlan | Bootloader/main.c:271-291 | write calls are issued iff the (corrected) range check holds; they are safe and bracketed by unlock and lock; they are exactly the calls of the written check whenever those are safe, and none otherwise |
| FlashOps.ShortWriteIgnored | Bootloader/main.c:273-278 | a payload too short to hold the address programs nothing, under either check |
| FlashOps.WriteWordsCarryData | Bootloader/main.c:281-283 | word k carries payload bytes 4k..4k+3: data byte j is byte j % 4 of word j / 4 |
| FlashOps.WriteWrapAdmitsTopOfMemory | Bootloader/main.c:278 | the written check admits address 0xFFFFFFF0 with 16 data bytes and programs outside flash; the corrected check refuses it |
| FlashOps.WritePartialWordPassesEnd | Bootloader/main.c:278-283 | the written check admits address 0x080FFFFE with one data byte, whose word runs past FLASH_END; the corrected check refuses it |
| FlashOps.EraseGuardAdmitsAll | Bootloader/main.c:298 | the written check holds for every sector number, including boot sector 0 and index 12 past the table |
| FlashOps.EraseGuardExact | Bootloader/main.c:298 | the corrected check admits exactly the table's sectors inside the application region |
| FlashOps.ErasePlan | Bootloader/main.c:294-311 | an erase is issued iff the (corrected) check holds and the sector is not empty; it is one erase of `sector << 3` between unlock and lock |
| Boot.Handle | Bootloader/main.c:358-369 | (corrected checks) BOOT_ENTER arms iff the key is 0xB00710AD (a wrong key disarms) and replies the new flag; nothing else changes the flag; unarmed, every other id is ignored without reply or flash call; an unknown id is silent; the loop ends iff BOOT_EXIT arrives armed, after reply [1]; only armed writes and erases touch flash and always reply the status; all calls are safe and bracketed |
| Boot.RunKeepsFlashSafe | Bootloader/main.c:329-372 | (corrected checks) across a whole session every flash call stays in the application region inside an unlock/lock window, and the controller is left locked |
| Boot.RunEndings | Bootloader/main.c:335-339 | the loop times out only while unarmed and more than BOOT_TIMEOUT ticks after entry; it exits only while armed, with [1] as the last message written |
| Boot.UnarmedRunIsSilent | Bootloader/main.c:358-361 | when no reception from any point of the trace yields BOOT_ENTER (a sufficient condition for none arriving), an unarmed session sends no reply, issues no flash call, stays unarmed and never exits by command |
| Boot.Bootloader.constructor | Bootloader/main.c:58 | the bootloader starts unarmed |
| Boot.Bootloader.HandleBootEnter | Bootloader/main.c:228-242 | the flag and the reply are those of BOOT_ENTER's effect |
| Boot.ReadReply | Bootloader/main.c:245-252 | READ_DATA replies `length` bytes; byte i is the memory byte at `address + i`, except for address 0, the null pointer, where every byte is 0 |
| Boot.Bootloader.HandleBootReadData | Bootloader/main.c:245-252 | replies as `ReadEffect` says: `length` bytes from `address` through `send_response`, all 0 for address 0 |
| Boot.Bootloader.HandleBootVerify | Bootloader/main.c:255-268 | replies with the CRC32 of `length` bytes from `address`, lowest byte first |
| Boot.Bootloader.HandleBootWriteData | Bootloader/main.c:271-291 | (corrected checks) issues exactly the write plan, then replies the status byte |
| Boot.Bootloader.WriteChecked | Bootloader/main.c:278-286 | (corrected checks) the flash calls added are exactly the write plan: none when the corrected range check fails |
| Boot.Bootloader.ProgramData | Bootloader/main.c:279-285 | unlock, then word k of the payload to `addr + 4k` for every `4k < len`, then lock |
| Boot.Bootloader.HandleBootEraseSector | Bootloader/main.c:294-311 | (corrected checks) issues exactly the erase plan, then replies the status byte |
| Boot.Bootloader.EraseChecked | Bootloader/main.c:298-308 | (corrected checks) the flash calls added are exactly the erase plan: none for a refused or already empty sector |
| Boot.Bootloader.HandleBootExit | Bootloader/main.c:314-318 | replies [1] |
| Boot.Bootloader.Dispatch | Bootloader/main.c:356-370 | the flag, flash calls and reply are those `Handle` gives; it asks the loop to return iff `Handle` says so |
| Boot.Bootloader.MsgLoop | Bootloader/main.c:329-372 | ends as `Run` does from the entry tick, with the session and unread polls `Run` gives |

## Left out

- UART, tick counter, LEDs: `uart_getc`, `uart_write`, `uart_flush`, `tickcount`, `board_*` and `toggle_led` are not part of this model. The first two are the `Link` stub over a finite trace; the LEDs and the flush are omitted.
- A trace that ends before the firmware would return is the model's own artefact. `Receive` is `Pending` there, and `MsgLoop` returns `TraceEnded`.
- Diagnostic output: the `msg_printf` calls inside the handlers, `msg_loop`, `msg_recv` and `start_app` are left out. So are the timeout dot and the `strerror` text. The link output of the model holds the replies only. `msg_printf` itself is modelled with its formatted text as input; `vsnprintf` and its negative return value are not.
- Replies.Printf: the model takes the formatted text; a formatting error is not modelled.
- `check_app` only prints a CRC verdict and is left out. The CRC engines are opaque constants.
- The `msr msp`/`bx` jump in `start_app`, `NVIC_SystemReset`, `set_option_bytes` and `main()` are left out. `StartApp` models the checks before the jump and says which way they go.
- Flash effects: the controller stub records calls and reports a fixed status. Programming and erasing do not change the modelled memory, and the status does not change. `VoltageRange_3` is dropped.
- MsgPacket.Transport.Recv: the contents of `msg` after a failed reception are not specified. The source leaves a partially decoded message there.
- `handle_boot_read_data` passes `length` bytes from `address` to `send_response`, which copies them into a payload array of MSG_MAX_DATA_SIZE bytes (nothing for address 0, the null pointer). The model replies with all `length` bytes and does not model the overflow past the array.
- Payload layouts come from the protocol's field order, since the message-structure header is not part of this model: the READ_DATA length is 2 bytes, the VERIFY length 4 bytes, the sector 1 byte.
- FlashMap.SectorEmptyCheck: records the loaded addresses but does not prove them 4-byte aligned.
- Boot.Handle, Boot.RunKeepsFlashSafe, Boot.Bootloader.HandleBootWriteData, Boot.Bootloader.WriteChecked, Boot.Bootloader.HandleBootEraseSector, Boot.Bootloader.EraseChecked, Boot.Bootloader.Dispatch and Boot.Bootloader.MsgLoop run the corrected range checks of "## Findings" (`FlashOps.WritePlan`, `FlashOps.ErasePlan`). The firmware as written does not keep every flash call inside the application region; `FlashOps.WritePlanAsWritten` and `FlashOps.EraseGuardAsWritten` model its checks.
- `handle_unknown_message` only prints; `Boot.Handle` states that an unknown id sends nothing.
- QuadControl/TerminalWidget.h (a UI declaration without bodies), Tools/ws2812_tab.py (a floating-point table generator) and Source/debounce.c (empty stubs) are not part of this model.

## Findings

| source | as written | input that shows it | evidently intended | confidence | as-written member | corrected member |
|---|---|---|---|---|---|---|
| Bootloader/main.c:298 | the test `msg->sector > 4` or `msg->sector < 11` holds for every sector number | sector 0 (a bootloader sector) or 12 (past the 12-entry table) passes the check | erase only the application sectors 4 to 11 | high, not executed | FlashOps.EraseGuardAdmitsAll | FlashOps.ErasePlan |
| Bootloader/main.c:278 | `addr + len < FLASH_END` computed in 32 bits wraps | WRITE_DATA for address 0xFFFFFFF0 with 16 data bytes: the sum wraps to 0 and four words are programmed at 0xFFFFFFF0 | compare the sum without wrap-around | high, not executed | FlashOps.WriteWrapAdmitsTopOfMemory | FlashOps.WritePlan |
| Bootloader/main.c:278-283 | the check uses `len`, but the loop programs whole words | WRITE_DATA for address 0x080FFFFE with one data byte: the word programmed runs two bytes past FLASH_END | also check that the last whole word ends by FLASH_END | medium, not executed | FlashOps.WritePartialWordPassesEnd | FlashOps.WriteGuardExact |
