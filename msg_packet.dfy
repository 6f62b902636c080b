/**
 * The message transport of the bootloader (msg_packet.c): a receive loop
 * that collects one 0x00-terminated frame from the link into `rx_buf`,
 * undoes the COBS/R stuffing and checks the CRC; and a send path that
 * stamps the CRC, stuffs `[crc|id|payload]` into `tx_buf`, appends the
 * end-of-packet marker and writes the buffer out.
 */
module MsgPacket {
  import opened Machine
  import opened External
  import opened Hardware

  /** Budget, in ticks (ms), for one frame measured from its first byte. */
  const PACKET_TIMEOUT: u32 := 1000

  /** Size of `rx_buf` and `tx_buf`: the stuffed CRC, id and largest payload, plus the end-of-packet marker. */
  const MAX_BUF_LENGTH: nat := EncodeBufLen(2 + 2 + MSG_MAX_DATA_SIZE) + 1
  function EncodeBufLen(n: nat): nat { COBSR_ENCODE_DST_BUF_LEN_MAX(n) }

  /** `dst_len` of the decode call: the CRC and id fields and the payload array of the message. */
  const DECODE_CAPACITY: nat := 2 + 2 + MSG_MAX_DATA_SIZE

  /** The values the transport leaves in `errno`; `NoError` is its value before any failure. */
  datatype Errno = NoError | EmsgTimeout | EmsgTooLong | EmsgCobsr | EmsgTooShort | EmsgCrc

  /** A message header and its payload; the header's `data_len` is `|data|`. */
  datatype Message = Message(crc: u16, id: u16, data: seq<byte>)

  /** `msg_calc_crc`: the CRC16 over the two id bytes followed by the payload. */
  function MsgCrc(id: u16, data: seq<byte>): u16
  {
    CRC16(LE16(id) + data)
  }

  /** The message as `msg_send` leaves it, with `crc` filled in. */
  function Stamped(m: Message): Message
  {
    m.(crc := MsgCrc(m.id, m.data))
  }

  /** The bytes handed to the codec: `crc`, `id` and the payload, fields lowest byte first. */
  function Frame(m: Message): (f: seq<byte>)
    ensures |f| == 2 + 2 + |m.data|
  {
    LE16(m.crc) + LE16(m.id) + m.data
  }

  /** The header fields and payload the decoder leaves in the message structure. */
  function Unframe(f: seq<byte>): Message
    requires |f| >= 2 + 2
  {
    Message(FromLE16(f[0..2]), FromLE16(f[2..4]), f[4..])
  }

  lemma UnframeFrame(m: Message)
    ensures Unframe(Frame(m)) == m
  {
    var f := Frame(m);
    assert f[0..2] == LE16(m.crc) && f[2..4] == LE16(m.id) && f[4..] == m.data;
    LE16RoundTrip(m.crc);
    LE16RoundTrip(m.id);
  }

  lemma FrameUnframe(f: seq<byte>)
    requires |f| >= 2 + 2
    ensures Frame(Unframe(f)) == f
  {
    FromLE16RoundTrip(f[0..2]);
    FromLE16RoundTrip(f[2..4]);
    assert f == f[0..2] + f[2..4] + f[4..];
  }

  // ---------------------------------------------------------------- sending

  /**
   * The bytes `msg_send` writes for the (stamped) message `m`: the stuffed
   * frame followed by one 0x00; None when the codec reports an error.
   */
  function Wire(m: Message): (w: Option<seq<byte>>)
    ensures w.Some? ==> 1 <= |w.value| <= MAX_BUF_LENGTH
    ensures w.Some? ==> w.value[|w.value| - 1] == 0 && 0 !in w.value[..|w.value| - 1]
    ensures w.Some? <==> COBSR.encode(Frame(m), MAX_BUF_LENGTH - 1).Some?
  {
    match COBSR.encode(Frame(m), MAX_BUF_LENGTH - 1)
    case None => None
    case Some(e) =>
      assert (e + [0])[..|e|] == e;
      Some(e + [0])
  }

  /** Everything `msg_send` puts on the link for a message with this id and payload. */
  function Emitted(id: u16, data: seq<byte>): seq<byte>
  {
    var w := Wire(Stamped(Message(0, id, data)));
    if w.Some? then w.value else []
  }

  // -------------------------------------------------------------- receiving

  /** How the receive loop ends on a trace of polls, and the polls it leaves unread. */
  datatype Gathered =
    | Delimited(raw: seq<byte>, rest: seq<Sample>)
    | Abandoned(err: Errno, rest: seq<Sample>)
    | Unfinished   // the trace ends first

  /** The bytes a run of polls delivers: each positive result, in order. */
  function Stored(samples: seq<Sample>): (b: seq<byte>)
    ensures 0 !in b
    ensures |b| <= |samples|
  {
    if samples == [] then []
    else (if samples[0].c > 0 then [samples[0].c as byte] else []) + Stored(samples[1..])
  }

  /** `rx_buf` after one poll: a positive result is appended. */
  function Poll(raw: seq<byte>, s: Sample): seq<byte>
  {
    if s.c > 0 then raw + [s.c as byte] else raw
  }

  /** The timeout reference after one poll: it restarts when the poll stored the first byte. */
  function Rebase(raw: seq<byte>, s: Sample, t0: u32): u32
  {
    if s.c > 0 && raw == [] then s.tick else t0
  }

  /**
   * The receive loop of `msg_recv`, from the state where `raw` is in
   * `rx_buf` and `t0` is the timeout reference. A 0x00 ends the frame and is
   * not stored; a negative poll stores nothing; the reference moves to the
   * time of the first stored byte; the loop gives up when more than
   * PACKET_TIMEOUT ticks have passed or the buffer is full.
   */
  function Gather(trace: seq<Sample>, t0: u32, raw: seq<byte>): (g: Gathered)
    requires |raw| < MAX_BUF_LENGTH
    ensures !g.Unfinished? ==> |g.rest| < |trace| && g.rest == trace[|trace| - |g.rest|..]
    ensures g.Delimited? ==> |g.raw| < MAX_BUF_LENGTH
    ensures g.Abandoned? ==> g.err == EmsgTimeout || g.err == EmsgTooLong
    decreases |trace|
  {
    if trace == [] then Unfinished
    else if trace[0].c == 0 then Delimited(raw, trace[1..])
    else if Sub32(trace[0].tick, Rebase(raw, trace[0], t0)) > PACKET_TIMEOUT then Abandoned(EmsgTimeout, trace[1..])
    else if |Poll(raw, trace[0])| >= MAX_BUF_LENGTH then Abandoned(EmsgTooLong, trace[1..])
    else Gather(trace[1..], Rebase(raw, trace[0], t0), Poll(raw, trace[0]))
  }

  lemma StoredCons(s: Sample, later: seq<Sample>)
    ensures Stored([s] + later) == Poll([], s) + Stored(later)
  {
    assert ([s] + later)[1..] == later;
  }

  /** No poll among the first `k` read 0x00. */
  ghost predicate NoMarker(trace: seq<Sample>, k: nat)
    requires k <= |trace|
  {
    forall i :: 0 <= i < k ==> trace[i].c != 0
  }

  lemma NoMarkerCons(trace: seq<Sample>, k: nat)
    requires 1 <= k <= |trace| && trace[0].c != 0 && NoMarker(trace[1..], k - 1)
    ensures NoMarker(trace, k)
  {
    forall i | 1 <= i < k
      ensures trace[i].c != 0
    {
      assert trace[i] == trace[1..][i - 1];
    }
  }

  /** The first byte stored, then the rest: `raw` grows by the positive polls of a prefix. */
  lemma StoredPrefix(trace: seq<Sample>, k: nat, raw: seq<byte>)
    requires 1 <= k <= |trace|
    ensures raw + Stored(trace[..k]) == Poll(raw, trace[0]) + Stored(trace[1..][..k - 1])
  {
    assert trace[..k] == [trace[0]] + trace[1..][..k - 1];
    StoredCons(trace[0], trace[1..][..k - 1]);
  }

  /**
   * A frame the receive loop delimits ends at the first 0x00 and holds every
   * positive poll before it.
   */
  lemma {:induction false} GatherDelimited(trace: seq<Sample>, t0: u32, raw: seq<byte>)
    requires |raw| < MAX_BUF_LENGTH
    requires Gather(trace, t0, raw).Delimited?
    ensures var g := Gather(trace, t0, raw);
      var n := |trace| - |g.rest|;
      && trace[n - 1].c == 0
      && NoMarker(trace, n - 1)
      && g.raw == raw + Stored(trace[..n - 1])
    decreases |trace|
  {
    if trace[0].c == 0 {
      assert trace[..0] == [];
    } else {
      GatherDelimited(trace[1..], Rebase(raw, trace[0], t0), Poll(raw, trace[0]));
      var n := |trace| - |Gather(trace, t0, raw).rest|;
      assert trace[n - 1] == trace[1..][n - 2];
      StoredPrefix(trace, n - 1, raw);
      NoMarkerCons(trace, n - 1);
    }
  }

  /**
   * The receive loop gives up before any 0x00, with EMSG_TIMEOUT or, only
   * once the buffer is full, EMSG_TOO_LONG.
   */
  lemma {:induction false} GatherAbandoned(trace: seq<Sample>, t0: u32, raw: seq<byte>)
    requires |raw| < MAX_BUF_LENGTH
    requires Gather(trace, t0, raw).Abandoned?
    ensures var g := Gather(trace, t0, raw);
      var n := |trace| - |g.rest|;
      && NoMarker(trace, n)
      && (g.err == EmsgTooLong ==> |raw + Stored(trace[..n])| == MAX_BUF_LENGTH)
    decreases |trace|
  {
    var n := |trace| - |Gather(trace, t0, raw).rest|;
    StoredPrefix(trace, n, raw);
    if Sub32(trace[0].tick, Rebase(raw, trace[0], t0)) > PACKET_TIMEOUT || |Poll(raw, trace[0])| >= MAX_BUF_LENGTH {
      assert trace[1..][..0] == [];
    } else {
      GatherAbandoned(trace[1..], Rebase(raw, trace[0], t0), Poll(raw, trace[0]));
      NoMarkerCons(trace, n);
    }
  }

  /** The steps after the loop: undo the stuffing, require the header, check the CRC. */
  function DecodeFrame(raw: seq<byte>): (r: Result<Message, Errno>)
    ensures r == Err(EmsgCobsr) <==> COBSR.decode(raw, DECODE_CAPACITY).None?
    ensures r == Err(EmsgTooShort) <==>
      COBSR.decode(raw, DECODE_CAPACITY).Some? && |COBSR.decode(raw, DECODE_CAPACITY).value| < 2 + 2
    ensures r.Ok? ==>
      && COBSR.decode(raw, DECODE_CAPACITY) == Some(Frame(r.value))
      && r.value.crc == MsgCrc(r.value.id, r.value.data)
      && |r.value.data| <= MSG_MAX_DATA_SIZE
    ensures r.Err? ==> r.error in {EmsgCobsr, EmsgTooShort, EmsgCrc}
    ensures var f := COBSR.decode(raw, DECODE_CAPACITY);
      f.Some? && |f.value| >= 2 + 2 ==>
        && (r.Ok? <==> MsgCrc(Unframe(f.value).id, Unframe(f.value).data) == Unframe(f.value).crc)
        && (r.Ok? ==> r.value == Unframe(f.value))
  {
    match COBSR.decode(raw, DECODE_CAPACITY)
    case None => Err(EmsgCobsr)
    case Some(f) =>
      if |f| < 2 + 2 then Err(EmsgTooShort)
      else
        var m := Unframe(f);
        FrameUnframe(f);
        if MsgCrc(m.id, m.data) != m.crc then Err(EmsgCrc) else Ok(m)
  }

  /** What `msg_recv` returns on a trace of polls, and the polls it leaves unread. */
  datatype Reception =
    | Received(msg: Message, rest: seq<Sample>)
    | Failed(err: Errno, rest: seq<Sample>)
    | Pending   // the trace ends before `msg_recv` would return

  /** `msg_recv` on a trace of polls; its starting reference is the time of the first poll. */
  function Receive(trace: seq<Sample>): (o: Reception)
    ensures o.Received? ==> o.msg.crc == MsgCrc(o.msg.id, o.msg.data) && |o.msg.data| <= MSG_MAX_DATA_SIZE
    ensures o.Failed? ==> o.err != NoError
    ensures !o.Pending? ==> |o.rest| < |trace|
    ensures trace != [] && Gather(trace, trace[0].tick, []).Delimited? ==>
      var g := Gather(trace, trace[0].tick, []);
      && (o.Received? <==> DecodeFrame(g.raw).Ok?)
      && (o.Received? ==> o.msg == DecodeFrame(g.raw).value && o.rest == g.rest)
      && (o.Failed? ==> o.err == DecodeFrame(g.raw).error && o.rest == g.rest)
    ensures trace != [] && Gather(trace, trace[0].tick, []).Abandoned? ==>
      o == Failed(Gather(trace, trace[0].tick, []).err, Gather(trace, trace[0].tick, []).rest)
  {
    if trace == [] then Pending
    else
      match Gather(trace, trace[0].tick, [])
      case Unfinished => Pending
      case Abandoned(e, rest) => Failed(e, rest)
      case Delimited(raw, rest) =>
        match DecodeFrame(raw)
        case Ok(m) => Received(m, rest)
        case Err(e) => Failed(e, rest)
  }

  // ------------------------------------------------------- timing of a frame

  /** Time of the first poll that delivered a byte, or `t0` when none did. */
  function FirstByteTick(samples: seq<Sample>, t0: u32): u32
  {
    if samples == [] then t0
    else if samples[0].c > 0 then samples[0].tick
    else FirstByteTick(samples[1..], t0)
  }

  /** The timeout reference after `samples`, when `raw` was already stored before them. */
  function Reference(raw: seq<byte>, samples: seq<Sample>, t0: u32): u32
  {
    if raw == [] then FirstByteTick(samples, t0) else t0
  }

  /** Each of the first `n` polls is within budget of the reference in force when it is made. */
  ghost predicate InBudget(trace: seq<Sample>, n: nat, t0: u32, raw: seq<byte>)
    requires n <= |trace|
  {
    forall i :: 0 <= i < n ==> Sub32(trace[i].tick, Reference(raw, trace[..i + 1], t0)) <= PACKET_TIMEOUT
  }

  /** A first poll within budget, followed by polls within budget after it, makes a run within budget. */
  lemma InBudgetCons(trace: seq<Sample>, n: nat, t0: u32, raw: seq<byte>)
    requires 1 <= n <= |trace| && trace[0].c != 0
    requires Sub32(trace[0].tick, Rebase(raw, trace[0], t0)) <= PACKET_TIMEOUT
    requires InBudget(trace[1..], n - 1, Rebase(raw, trace[0], t0), Poll(raw, trace[0]))
    ensures InBudget(trace, n, t0, raw)
  {
    var s, later := trace[0], trace[1..];
    forall i | 0 <= i < n
      ensures Sub32(trace[i].tick, Reference(raw, trace[..i + 1], t0)) <= PACKET_TIMEOUT
    {
      assert trace[..i + 1] == [s] + later[..i];
      ReferenceStep(raw, s, later[..i], t0);
      if i == 0 {
        ReferenceStep(raw, s, [], t0);
      } else {
        assert trace[i] == later[i - 1];
      }
    }
  }

  /**
   * The timeout is measured from the first stored byte (or from the call
   * while nothing is stored): every poll before the last is within budget,
   * and the loop gives up with EMSG_TIMEOUT exactly when the last poll is over
   * budget.
   */
  lemma {:induction false} GatherTiming(trace: seq<Sample>, t0: u32, raw: seq<byte>)
    requires |raw| < MAX_BUF_LENGTH
    requires !Gather(trace, t0, raw).Unfinished?
    ensures var g := Gather(trace, t0, raw);
      var n := |trace| - |g.rest|;
      && InBudget(trace, n - 1, t0, raw)
      && (g.Abandoned? ==>
            (Sub32(trace[n - 1].tick, Reference(raw, trace[..n], t0)) > PACKET_TIMEOUT <==> g.err == EmsgTimeout))
    decreases |trace|
  {
    var s := trace[0];
    var g := Gather(trace, t0, raw);
    var n := |trace| - |g.rest|;
    if s.c != 0 && Sub32(s.tick, Rebase(raw, s, t0)) <= PACKET_TIMEOUT && |Poll(raw, s)| < MAX_BUF_LENGTH {
      var t0', raw' := Rebase(raw, s, t0), Poll(raw, s);
      GatherTiming(trace[1..], t0', raw');
      InBudgetCons(trace, n - 1, t0, raw);
      LastPollStep(trace, n, t0, raw);
    } else if s.c != 0 {
      assert trace[..1] == [s] + [];
      ReferenceStep(raw, s, [], t0);
    }
  }

  /** The last of the first `n` polls, seen from the second poll on. */
  lemma LastPollStep(trace: seq<Sample>, n: nat, t0: u32, raw: seq<byte>)
    requires 2 <= n <= |trace| && trace[0].c != 0
    ensures trace[n - 1] == trace[1..][n - 2]
    ensures Reference(raw, trace[..n], t0) ==
      Reference(Poll(raw, trace[0]), trace[1..][..n - 1], Rebase(raw, trace[0], t0))
  {
    assert trace[..n] == [trace[0]] + trace[1..][..n - 1];
    ReferenceStep(raw, trace[0], trace[1..][..n - 1], t0);
  }

  /** One poll that is not the end marker moves the reference as the loop does. */
  lemma ReferenceStep(raw: seq<byte>, s: Sample, later: seq<Sample>, t0: u32)
    requires s.c != 0
    ensures Reference(raw, [s] + later, t0) == Reference(Poll(raw, s), later, Rebase(raw, s, t0))
  {
    assert ([s] + later)[1..] == later;
  }

  // ------------------------------------------------------------- round trip

  /** The polls that deliver `bytes`, the i-th at tick `ticks[i]`. */
  function Feed(bytes: seq<byte>, ticks: seq<u32>): (s: seq<Sample>)
    requires |ticks| == |bytes|
    ensures |s| == |bytes|
    ensures forall i :: 0 <= i < |s| ==> s[i] == Sample(bytes[i], ticks[i])
  {
    seq(|bytes|, i requires 0 <= i < |bytes| => Sample(bytes[i], ticks[i]))
  }

  /** With a reference already set, one non-zero byte within budget is stored and the reference stays. */
  lemma GatherStores(trace: seq<Sample>, t0: u32, raw: seq<byte>)
    requires trace != [] && trace[0].c > 0 && raw != []
    requires |raw| + 1 < MAX_BUF_LENGTH && Sub32(trace[0].tick, t0) <= PACKET_TIMEOUT
    ensures Gather(trace, t0, raw) == Gather(trace[1..], t0, raw + [trace[0].c as byte])
  {
    assert Rebase(raw, trace[0], t0) == t0 && Poll(raw, trace[0]) == raw + [trace[0].c as byte];
  }

  /** The polls of `bytes` followed by `tail`: the first byte, then the polls of the others. */
  lemma FeedTail(bytes: seq<byte>, ticks: seq<u32>, tail: seq<Sample>)
    requires |ticks| == |bytes| && bytes != []
    ensures (Feed(bytes, ticks) + tail)[0] == Sample(bytes[0], ticks[0])
    ensures (Feed(bytes, ticks) + tail)[1..] == Feed(bytes[1..], ticks[1..]) + tail
  {
    assert Feed(bytes, ticks)[1..] == Feed(bytes[1..], ticks[1..]);
  }

  /** With a reference already set, non-zero bytes within budget are stored until the 0x00 that starts `tail`. */
  lemma {:induction false} GatherCollects(bytes: seq<byte>, ticks: seq<u32>, t0: u32, raw: seq<byte>, tail: seq<Sample>)
    requires Collectable(bytes, ticks, t0, raw, tail)
    ensures Gather(Feed(bytes, ticks) + tail, t0, raw) == Delimited(raw + bytes, tail[1..])
    decreases |bytes|
  {
    if bytes == [] {
      assert Feed(bytes, ticks) + tail == tail;
    } else {
      FeedTail(bytes, ticks, tail);
      GatherStores(Feed(bytes, ticks) + tail, t0, raw);
      CollectableRest(bytes, ticks, t0, raw, tail);
      GatherCollects(bytes[1..], ticks[1..], t0, raw + [bytes[0]], tail);
      assert raw + [bytes[0]] + bytes[1..] == raw + bytes;
    }
  }

  /**
   * Non-zero bytes with their ticks, all within budget of `t0`, that fit
   * after the bytes already stored, followed by polls that start with the
   * end marker.
   */
  ghost predicate Collectable(bytes: seq<byte>, ticks: seq<u32>, t0: u32, raw: seq<byte>, tail: seq<Sample>)
  {
    && |ticks| == |bytes| && 0 !in bytes
    && tail != [] && tail[0].c == 0
    && raw != [] && |raw| + |bytes| < MAX_BUF_LENGTH
    && forall i :: 0 <= i < |ticks| ==> Sub32(ticks[i], t0) <= PACKET_TIMEOUT
  }

  lemma CollectableRest(bytes: seq<byte>, ticks: seq<u32>, t0: u32, raw: seq<byte>, tail: seq<Sample>)
    requires Collectable(bytes, ticks, t0, raw, tail) && bytes != []
    ensures Collectable(bytes[1..], ticks[1..], t0, raw + [bytes[0]], tail)
    ensures bytes[0] != 0 && Sub32(ticks[0], t0) <= PACKET_TIMEOUT && |raw| + 1 < MAX_BUF_LENGTH
  {
    assert forall i :: 0 <= i < |ticks| - 1 ==> ticks[1..][i] == ticks[i + 1];
  }

  /** The polls of a wire image: the stuffed bytes, then the marker. */
  lemma FeedSplit(e: seq<byte>, ticks: seq<u32>, rest: seq<Sample>)
    requires |ticks| == |e| + 1
    ensures Feed(e + [0], ticks) + rest == Feed(e, ticks[..|e|]) + [Sample(0, ticks[|e|])] + rest
  {
    assert Feed(e + [0], ticks) == Feed(e, ticks[..|e|]) + [Sample(0, ticks[|e|])];
  }

  /** The receive loop, started on the polls of a stuffed frame, delimits exactly that frame. */
  lemma GatherFrame(e: seq<byte>, ticks: seq<u32>, rest: seq<Sample>)
    requires 0 !in e && |e| < MAX_BUF_LENGTH && |ticks| == |e| + 1
    requires forall i :: 0 <= i < |e| ==> Sub32(ticks[i], ticks[0]) <= PACKET_TIMEOUT
    ensures Gather(Feed(e + [0], ticks) + rest, ticks[0], []) == Delimited(e, rest)
  {
    var n := |e|;
    FeedSplit(e, ticks, rest);
    var trace := Feed(e, ticks[..n]) + [Sample(0, ticks[n])] + rest;
    if n == 0 {
      assert trace[0] == Sample(0, ticks[0]) && trace[1..] == rest;
    } else {
      assert trace[0] == Sample(e[0], ticks[0]);
      var tail := [Sample(0, ticks[n])] + rest;
      assert trace[1..] == Feed(e[1..], ticks[1..n]) + tail;
      assert Rebase([], trace[0], ticks[0]) == ticks[0] && Poll([], trace[0]) == [e[0]];
      GatherCollects(e[1..], ticks[1..n], ticks[0], [e[0]], tail);
      assert tail[1..] == rest;
      assert [e[0]] + e[1..] == e;
    }
  }

  /**
   * Round trip: the bytes `msg_send` writes for a message whose payload fits
   * the message structure, polled back with no more than PACKET_TIMEOUT
   * ticks between the first byte and the last, make `msg_recv` return the
   * same id and payload (and the CRC `msg_send` stamped).
   */
  lemma SendThenReceive(m: Message, ticks: seq<u32>, rest: seq<Sample>)
    requires |m.data| <= MSG_MAX_DATA_SIZE
    requires Wire(Stamped(m)).Some?
    requires |ticks| == |Wire(Stamped(m)).value|
    requires forall i :: 0 <= i < |ticks| - 1 ==> Sub32(ticks[i], ticks[0]) <= PACKET_TIMEOUT
    ensures Receive(Feed(Wire(Stamped(m)).value, ticks) + rest) == Received(Stamped(m), rest)
  {
    var s := Stamped(m);
    var e := COBSR.encode(Frame(s), MAX_BUF_LENGTH - 1).value;
    assert Wire(s).value == e + [0];
    GatherFrame(e, ticks, rest);
    assert COBSR.decode(e, DECODE_CAPACITY) == Some(Frame(s));
    UnframeFrame(s);
  }

  // ------------------------------------------------------------ the buffers

  class Transport {
    const rxBuf: array<byte>
    const txBuf: array<byte>
    const link: Link
    /** The global `errno`, as far as the transport sets it. */
    var errno: Errno

    ghost predicate Valid()
      reads this
    {
      rxBuf.Length == MAX_BUF_LENGTH && txBuf.Length == MAX_BUF_LENGTH
    }

    constructor (link: Link)
      ensures Valid() && fresh(rxBuf) && fresh(txBuf)
      ensures this.link == link && errno == NoError
    {
      rxBuf := new byte[MAX_BUF_LENGTH];
      txBuf := new byte[MAX_BUF_LENGTH];
      this.link := link;
      errno := NoError;
    }

    /**
     * `msg_recv`: returns the payload length and fills `msg`, or returns -1
     * and sets `errno`. What `msg` holds after a failure is not specified.
     */
    method Recv() returns (r: int, msg: Message)
      requires Valid()
      requires !Receive(link.input).Pending?
      modifies this`errno, rxBuf, link`input
      ensures var o := Receive(old(link.input));
        && link.input == o.rest
        && (o.Received? ==> r == |o.msg.data| && msg == o.msg && errno == old(errno))
        && (o.Failed? ==> r == -1 && errno == o.err)
      ensures |link.input| < |old(link.input)|
    {
      msg := Message(0, 0, []);
      ghost var trace := link.input;
      var t0 := link.Now();
      var rxLen := 0;
      ghost var raw: seq<byte>;
      while true
        invariant 0 <= rxLen < MAX_BUF_LENGTH
        invariant Gather(link.input, t0, rxBuf[..rxLen]) == Gather(trace, trace[0].tick, [])
        invariant !Gather(link.input, t0, rxBuf[..rxLen]).Unfinished?
        invariant errno == old(errno)
        decreases |link.input|
      {
        ghost var before := link.input;
        ghost var stored := rxBuf[..rxLen];
        var c, now := link.Getc();
        assert before[0] == Sample(c, now) && before[1..] == link.input;
        if c == 0 {
          raw := stored;
          assert Gather(trace, trace[0].tick, []) == Delimited(raw, link.input);
          break;
        }
        if c >= 0 {
          rxBuf[rxLen] := c;
          rxLen := rxLen + 1;
          assert rxBuf[..rxLen] == stored + [c];
          if rxLen == 1 {
            t0 := now;
          }
        }
        if Sub32(now, t0) > PACKET_TIMEOUT {
          errno := EmsgTimeout;
          return -1, msg;
        }
        if rxLen >= MAX_BUF_LENGTH {
          errno := EmsgTooLong;
          return -1, msg;
        }
      }
      assert rxBuf[..rxLen] == raw;
      var decoded := COBSR.decode(rxBuf[..rxLen], DECODE_CAPACITY);
      if decoded.None? {
        errno := EmsgCobsr;
        return -1, msg;
      }
      var f := decoded.value;
      if |f| < 2 + 2 {
        errno := EmsgTooShort;
        return -1, msg;
      }
      msg := Unframe(f);
      if MsgCrc(msg.id, msg.data) != msg.crc {
        errno := EmsgCrc;
        return -1, msg;
      }
      r := |msg.data|;
    }

    /**
     * `msg_send`: stamps the CRC, writes the stuffed frame and one 0x00 to
     * `tx_buf` and the link, and returns the payload length (not the number
     * of bytes written); on a codec error returns -1 with EMSG_COBSR and
     * writes nothing to the link.
     */
    method Send(msg: Message) returns (r: int, stamped: Message)
      requires Valid()
      modifies this`errno, txBuf, link`output
      ensures stamped == Stamped(msg)
      ensures Wire(stamped).Some? ==>
        && r == |msg.data| && errno == old(errno)
        && link.output == old(link.output) + Wire(stamped).value
        && txBuf[..|Wire(stamped).value|] == Wire(stamped).value
      ensures Wire(stamped).None? ==> r == -1 && errno == EmsgCobsr && link.output == old(link.output)
    {
      stamped := msg.(crc := MsgCrc(msg.id, msg.data));
      var encoded := COBSR.encode(Frame(stamped), txBuf.Length - 1);
      if encoded.None? {
        errno := EmsgCobsr;
        return -1, stamped;
      }
      var e := encoded.value;
      var outLen := |e|;
      forall i | 0 <= i < outLen {
        txBuf[i] := e[i];
      }
      txBuf[outLen] := 0;
      outLen := outLen + 1;
      assert txBuf[..outLen] == e + [0];
      link.Write(txBuf[..outLen]);
      r := |msg.data|;
    }
  }
}
