/**
 * The bootloader's outgoing messages (main.c): `send_response`, the reply to
 * every command; `send_shell_to_pc`, one message of console text; and
 * `msg_printf`, which cuts formatted text into as many console messages as
 * it needs. Formatting itself (`vsnprintf`) is not modelled: `msg_printf`
 * takes the formatted text.
 */
module Replies {
  import opened Machine
  import opened External
  import opened Hardware
  import opened MsgPacket

  /** `errno` after `msg_send` of this id and payload: EMSG_COBSR when the codec fails, otherwise unchanged. */
  function SendErrno(errno: Errno, id: u16, data: seq<byte>): Errno
  {
    if Wire(Stamped(Message(0, id, data))).None? then EmsgCobsr else errno
  }

  /**
   * The payload of a BOOT_RESPONSE of `len` bytes copied from `src`. The
   * response starts zero-initialised and a null source (`None`) skips the
   * copy, so its bytes stay 0.
   */
  function ResponseData(src: Option<seq<byte>>, len: nat): (r: seq<byte>)
    requires src.Some? ==> |src.value| == len
    ensures |r| == len
    ensures src.Some? ==> r == src.value
    ensures src.None? ==> forall i :: 0 <= i < len ==> r[i] == 0
  {
    match src
    case Some(data) => data
    case None => seq(len, _ => 0)
  }

  /** `send_response`: one BOOT_RESPONSE message of `len` bytes from `src`, which may be null. */
  method SendResponse(t: Transport, src: Option<seq<byte>>, len: nat)
    requires t.Valid()
    requires src.Some? ==> |src.value| == len
    modifies t`errno, t.txBuf, t.link`output
    ensures t.link.output == old(t.link.output) + Emitted(MSG_ID_BOOT_RESPONSE, ResponseData(src, len))
    ensures t.errno == SendErrno(old(t.errno), MSG_ID_BOOT_RESPONSE, ResponseData(src, len))
  {
    var data := if src.Some? then src.value else seq(len, _ => 0);
    var _, _ := t.Send(Message(0, MSG_ID_BOOT_RESPONSE, data));
  }

  function Min(a: int, b: int): int
  {
    if a <= b then a else b
  }

  /**
   * `send_shell_to_pc`: sends the first `size` bytes of `buf` as one
   * SHELL_TO_PC message, cut to what the message holds, and returns how many
   * it sent.
   */
  method SendShellToPc(t: Transport, buf: seq<byte>, size: nat) returns (sent: nat)
    requires t.Valid() && size <= |buf|
    modifies t`errno, t.txBuf, t.link`output
    ensures sent == Min(size, SHELL_TO_PC_DATA_SIZE)
    ensures t.link.output == old(t.link.output) + Emitted(MSG_ID_SHELL_TO_PC, buf[..sent])
    ensures t.errno == SendErrno(old(t.errno), MSG_ID_SHELL_TO_PC, buf[..sent])
  {
    sent := size;
    if sent > SHELL_TO_PC_DATA_SIZE {
      sent := SHELL_TO_PC_DATA_SIZE;
    }
    var _, _ := t.Send(Message(0, MSG_ID_SHELL_TO_PC, buf[..sent]));
  }

  // ------------------------------------------------------------- chunking

  /** How console text is cut: full messages, then what is left. */
  function ShellChunks(s: seq<byte>): seq<seq<byte>>
    decreases |s|
  {
    if s == [] then []
    else
      var k := Min(|s|, SHELL_TO_PC_DATA_SIZE);
      [s[..k]] + ShellChunks(s[k..])
  }

  function Flatten(chunks: seq<seq<byte>>): seq<byte>
  {
    if chunks == [] then [] else chunks[0] + Flatten(chunks[1..])
  }

  /** The bytes the console messages for `chunks` put on the link. */
  function EmitAll(chunks: seq<seq<byte>>): seq<byte>
  {
    if chunks == [] then [] else Emitted(MSG_ID_SHELL_TO_PC, chunks[0]) + EmitAll(chunks[1..])
  }

  /** `errno` after sending the console messages for `chunks`. */
  function ErrnoAfter(errno: Errno, chunks: seq<seq<byte>>): Errno
    decreases |chunks|
  {
    if chunks == [] then errno else ErrnoAfter(SendErrno(errno, MSG_ID_SHELL_TO_PC, chunks[0]), chunks[1..])
  }

  /** The chunks, put back together, are the text. */
  lemma {:induction false} ChunksRejoin(s: seq<byte>)
    ensures Flatten(ShellChunks(s)) == s
    decreases |s|
  {
    if s != [] {
      var k := Min(|s|, SHELL_TO_PC_DATA_SIZE);
      ChunksRejoin(s[k..]);
      assert ([s[..k]] + ShellChunks(s[k..]))[1..] == ShellChunks(s[k..]);
      assert s[..k] + s[k..] == s;
    }
  }

  /** Every chunk is non-empty and fits one message, and every chunk but the last is full. */
  predicate ChunksFit(c: seq<seq<byte>>)
  {
    && (forall i :: 0 <= i < |c| ==> 1 <= |c[i]| <= SHELL_TO_PC_DATA_SIZE)
    && (forall i :: 0 <= i < |c| - 1 ==> |c[i]| == SHELL_TO_PC_DATA_SIZE)
  }

  lemma {:induction false} ChunksSized(s: seq<byte>)
    ensures ChunksFit(ShellChunks(s))
    decreases |s|
  {
    if s != [] {
      var k := Min(|s|, SHELL_TO_PC_DATA_SIZE);
      ChunksSized(s[k..]);
      var c, tail := ShellChunks(s), ShellChunks(s[k..]);
      assert c == [s[..k]] + tail;
      if k < SHELL_TO_PC_DATA_SIZE {
        assert s[k..] == [] && tail == [];
      }
      forall i | 0 <= i < |c|
        ensures 1 <= |c[i]| <= SHELL_TO_PC_DATA_SIZE
        ensures i < |c| - 1 ==> |c[i]| == SHELL_TO_PC_DATA_SIZE
      {
        if i == 0 {
          assert c[0] == s[..k] && 1 <= k <= SHELL_TO_PC_DATA_SIZE;
        } else {
          assert c[i] == tail[i - 1];
        }
      }
    }
  }

  /**
   * There are as many chunks as messages the text needs: `|c|` messages
   * hold the text, and one fewer would not.
   */
  lemma {:induction false} ChunksCount(s: seq<byte>)
    ensures var c := ShellChunks(s);
      |s| <= |c| * SHELL_TO_PC_DATA_SIZE && (|c| > 0 ==> (|c| - 1) * SHELL_TO_PC_DATA_SIZE < |s|)
    decreases |s|
  {
    var n := SHELL_TO_PC_DATA_SIZE;
    if s != [] {
      var k := Min(|s|, n);
      ChunksCount(s[k..]);
      var m := |ShellChunks(s[k..])|;
      assert |ShellChunks(s)| == m + 1;
      if |s| <= n {
        assert s[k..] == [] && m == 0;
      } else {
        assert |s| == n + |s[k..]|;
        assert (m + 1) * n == m * n + n;
        assert m > 0 && m * n == (m - 1) * n + n;
      }
    }
  }

  /**
   * Sending the chunks of non-empty text after `before` is already on the
   * link: the first message, then the chunks of the rest.
   */
  lemma ChunksStep(s: seq<byte>, before: seq<byte>, errno: Errno)
    requires s != []
    ensures var k := Min(|s|, SHELL_TO_PC_DATA_SIZE);
      && before + EmitAll(ShellChunks(s)) == (before + Emitted(MSG_ID_SHELL_TO_PC, s[..k])) + EmitAll(ShellChunks(s[k..]))
      && ErrnoAfter(errno, ShellChunks(s)) ==
           ErrnoAfter(SendErrno(errno, MSG_ID_SHELL_TO_PC, s[..k]), ShellChunks(s[k..]))
  {
    var k := Min(|s|, SHELL_TO_PC_DATA_SIZE);
    assert ([s[..k]] + ShellChunks(s[k..]))[1..] == ShellChunks(s[k..]);
  }

  /**
   * What is still owed when the last `todo` bytes of `buf` are unsent: the
   * link and `errno` reach `out` and `err` once their messages are sent.
   */
  ghost predicate Owed(t: Transport, buf: seq<byte>, todo: nat, out: seq<byte>, err: Errno)
    requires todo <= |buf|
    reads t, t.link
  {
    && out == t.link.output + EmitAll(ShellChunks(buf[|buf| - todo..]))
    && err == ErrnoAfter(t.errno, ShellChunks(buf[|buf| - todo..]))
  }

  /** One pass of the `msg_printf` loop: sends the next chunk of the `todo` bytes left at the end of `buf`. */
  method ShellStep(t: Transport, buf: seq<byte>, todo: nat, ghost out: seq<byte>, ghost err: Errno)
    returns (todo': nat)
    requires t.Valid() && 0 < todo <= |buf|
    requires Owed(t, buf, todo, out, err)
    modifies t`errno, t.txBuf, t.link`output
    ensures todo' < todo
    ensures Owed(t, buf, todo', out, err)
  {
    var n := |buf|;
    var rest := buf[n - todo..];
    ghost var before, errno := t.link.output, t.errno;
    ghost var k := Min(|rest|, SHELL_TO_PC_DATA_SIZE);
    ChunksStep(rest, before, errno);
    var sent := SendShellToPc(t, rest, todo);
    todo' := todo - sent;
    assert sent == k;
    assert rest[k..] == buf[n - todo'..];
    assert t.link.output == before + Emitted(MSG_ID_SHELL_TO_PC, rest[..k]);
    assert t.errno == SendErrno(errno, MSG_ID_SHELL_TO_PC, rest[..k]);
    assert out == t.link.output + EmitAll(ShellChunks(rest[k..]));
    assert err == ErrnoAfter(t.errno, ShellChunks(rest[k..]));
  }

  /** Maximum text `msg_printf` sends: the 256-byte buffer less the terminating NUL. */
  const PRINTF_MAX: nat := 255

  /**
   * `msg_printf` with the formatted `text`: keeps what fits the buffer,
   * sends it in order as console messages of at most
   * SHELL_TO_PC_DATA_SIZE bytes, and returns how many bytes it sent.
   */
  method Printf(t: Transport, text: seq<byte>) returns (n: nat)
    requires t.Valid()
    modifies t`errno, t.txBuf, t.link`output
    ensures n == Min(|text|, PRINTF_MAX)
    ensures t.link.output == old(t.link.output) + EmitAll(ShellChunks(text[..n]))
    ensures t.errno == ErrnoAfter(old(t.errno), ShellChunks(text[..n]))
  {
    n := |text|;
    if n > PRINTF_MAX {
      n := PRINTF_MAX;
    }
    var buf := text[..n];
    ghost var out, err := t.link.output + EmitAll(ShellChunks(buf)), ErrnoAfter(t.errno, ShellChunks(buf));
    var todo := n;
    assert buf[n - todo..] == buf;
    while todo > 0
      invariant 0 <= todo <= n
      invariant Owed(t, buf, todo, out, err)
      decreases todo
    {
      todo := ShellStep(t, buf, todo, out, err);
    }
    assert buf[n..] == [];
  }
}
