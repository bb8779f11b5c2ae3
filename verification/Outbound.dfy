/** The C64's single-outstanding sender: building, paced sending, retransmission and giving up. */
module Outbound {
  import opened Wire
  import opened Frames
  import opened TransportIds
  import opened TxBuffer

  const STALE_TICKS: byte := 250
  const MAX_RETRIES: byte := 3
  const BYTES_PER_PASS: nat := 16

  /** The sender's registers: the frame in the buffer and how far it is sent. */
  datatype Tx = Tx(cur: seq<byte>, pos: nat, wait: bool, ackId: byte, timer: byte, retries: byte, nextId: byte)
  {
    predicate Drained() { pos == |cur| }
  }

  /** A frame a builder can deliver: one of the types that carry an id, with room for it. */
  predicate Buildable(f: Frame) {
    ReliableC64(f.typ) && |f.payload| + 5 <= TXBUF_LEN
  }

  datatype Event =
    | Service(ticked: bool, ready: Option<Frame>, room: nat)  // one pass of service_outbound_inner
    | Acked(payload: seq<byte>)                               // a bridge acknowledgment arrives
    | InboundAccepted                                         // any new reliable bridge frame
    | TextAccepted                                            // TEXT also proves an LLM frame arrived

  predicate Admissible(e: Event) {
    e.Service? && e.ready.Some? ==> Buildable(e.ready.value)
  }

  /** What a pass decides to do before sending bytes. */
  datatype Move = Keep(timer: byte) | Retry | GiveUp(timer: byte)

  function Decide(t: Tx, ticked: bool): Move {
    if !t.Drained() || !t.wait then Keep(t.timer) else
    var timer := if ticked then (t.timer + 1) % 0x100 else t.timer;
    if timer < STALE_TICKS then Keep(timer)
    else if t.retries < MAX_RETRIES then Retry
    else GiveUp(timer)
  }

  function Decided(t: Tx, m: Move): Tx {
    match m
    case Keep(timer) => t.(timer := timer)
    case Retry => t.(pos := 0, timer := 0, retries := (t.retries + 1) % 0x100)
    case GiveUp(timer) => t.(wait := false, timer := timer)
  }

  function Built(t: Tx, f: Frame): Tx
    requires Buildable(f)
  {
    Tx([SYNC] + Body(WithID(t.nextId, f)), 0, true, t.nextId, 0, 0, NextTxId(t.nextId))
  }

  predicate MayBuild(t: Tx, ready: Option<Frame>) {
    t.Drained() && !t.wait && ready.Some?
  }

  function Quota(t: Tx, room: nat): nat
    requires t.pos <= |t.cur|
  {
    var left := |t.cur| - t.pos;
    if room < left && room < BYTES_PER_PASS then room
    else if left < BYTES_PER_PASS then left
    else BYTES_PER_PASS
  }

  datatype Pass = Pass(tx: Tx, sent: seq<byte>)

  function SendBytes(t: Tx, room: nat): Pass
    requires t.pos <= |t.cur|
  {
    var n := t.pos + Quota(t, room);
    Pass(t.(pos := n), t.cur[t.pos..n])
  }

  function ServicePass(t: Tx, ticked: bool, ready: Option<Frame>, room: nat): (p: Pass)
    requires t.pos <= |t.cur| && (ready.Some? ==> Buildable(ready.value))
    ensures p.tx.pos <= |p.tx.cur|
  {
    var d := Decided(t, Decide(t, ticked));
    SendBytes(if MayBuild(d, ready) then Built(d, ready.value) else d, room)
  }

  /** An acknowledgment of a bridge frame, as it goes out. */
  function AckImage(id: byte): seq<byte> {
    [SYNC] + Body(Frame(ACK, [id]))
  }

  /** As many bytes as are left, as there is room for, and as a pass may send, whichever is least. */
  lemma QuotaIsLeast(t: Tx, room: nat)
    requires t.pos <= |t.cur|
    ensures var q, left := Quota(t, room), |t.cur| - t.pos;
            && q <= left && q <= room && q <= BYTES_PER_PASS
            && (q == left || q == room || q == BYTES_PER_PASS)
  {}

  // ---- when a frame is built, and when it is sent again ----

  /** A frame newly in the buffer, under this id, with its wait begun. */
  predicate Begun(t: Tx, id: byte, f: Frame)
    requires Buildable(f)
  {
    && t.cur == [SYNC] + Body(WithID(id, f)) && t.ackId == id && t.nextId == NextTxId(id)
    && t.wait && t.timer == 0 && t.retries == 0
  }

  /** An idle sender builds what is ready, and begins to send it in the same pass. */
  lemma IdlePass(t: Tx, ticked: bool, ready: Option<Frame>, room: nat)
    requires t.Drained() && !t.wait && (ready.Some? ==> Buildable(ready.value))
    ensures var p := ServicePass(t, ticked, ready, room);
            if ready == None then p == Pass(t, [])
            else Begun(p.tx, t.nextId, ready.value) && p.tx.pos == |p.sent| == Quota(p.tx.(pos := 0), room)
                 && p.sent == p.tx.cur[..p.tx.pos]
  {
    hide Body;
  }

  function Tick(e: Event): nat {
    if e.Service? && e.ticked then 1 else 0
  }

  function Ticks(passes: seq<Event>): nat {
    if passes == [] then 0 else Ticks(passes[..|passes| - 1]) + Tick(passes[|passes| - 1])
  }

  predicate AllPasses(passes: seq<Event>) {
    passes != [] ==>
      var e := passes[|passes| - 1];
      AllPasses(passes[..|passes| - 1]) && e.Service? && Admissible(e)
  }

  /** Where passes alone lead, and what they send. */
  function Passes(t: Tx, passes: seq<Event>): (p: Pass)
    requires t.pos <= |t.cur| && AllPasses(passes)
    ensures p.tx.pos <= |p.tx.cur|
  {
    if passes == [] then Pass(t, []) else
    var e := passes[|passes| - 1];
    var p := Passes(t, passes[..|passes| - 1]);
    var q := ServicePass(p.tx, e.ticked, e.ready, e.room);
    Pass(q.tx, p.sent + q.sent)
  }

  lemma SilentPass(t: Tx, e: Event)
    requires t.Drained() && t.wait && e.Service? && Admissible(e) && t.timer + Tick(e) < 250
    ensures ServicePass(t, e.ticked, e.ready, e.room) == Pass(t.(timer := t.timer + Tick(e)), [])
  {}

  /** While a frame waits for its acknowledgment, fewer than 250 ticks pass in silence, whatever is ready. */
  lemma {:induction false} SilentBelow250(t: Tx, passes: seq<Event>)
    requires t.Drained() && t.wait && AllPasses(passes) && t.timer + Ticks(passes) < 250
    ensures Passes(t, passes) == Pass(t.(timer := t.timer + Ticks(passes)), [])
  {
    hide ServicePass, Tick;
    if passes != [] {
      var init := passes[..|passes| - 1];
      SilentBelow250(t, init);
      SilentPass(t.(timer := t.timer + Ticks(init)), passes[|passes| - 1]);
    }
  }

  /** The 250th tick sends the frame again, up to three times; the next 250th gives it up and builds what is ready. */
  lemma TickThatRepeats(t: Tx, ready: Option<Frame>, room: nat)
    requires t.Drained() && t.wait && t.timer == 249 && (ready.Some? ==> Buildable(ready.value))
    ensures var p := ServicePass(t, true, ready, room);
            if t.retries < 3 then
              && p.tx == t.(pos := Quota(t.(pos := 0), room), timer := 0, retries := t.retries + 1)
              && p.sent == t.cur[..p.tx.pos]
            else if ready == None then p == Pass(t.(wait := false, timer := 250), [])
            else Begun(p.tx, t.nextId, ready.value)
  {
    hide Body;
  }

  // ---- the imperative sender over the real buffer ----

  ghost predicate Ready(tx: TxBuf)
    reads tx
  {
    tx.Valid()
  }

  ghost function Image(tx: TxBuf): seq<byte>
    requires tx.sendTotal <= tx.buf.Length
    reads tx`sendTotal, tx.buf
  {
    tx.buf[..tx.sendTotal]
  }

  ghost function Regs(tx: TxBuf): Tx
    requires Ready(tx)
    reads tx, tx.buf
  {
    Tx(Image(tx), tx.sendPos, tx.txAckWait, tx.txAckId, tx.txAckTimer, tx.txRetries, tx.txNextId)
  }

  /** One pass: age the wait, retransmit or give up, build the next frame if idle, send a few bytes. */
  method ServiceOutbound(tx: TxBuf, ticked: bool, ready: Option<Frame>, room: nat) returns (sent: seq<byte>)
    requires Ready(tx) && (ready.Some? ==> Buildable(ready.value))
    modifies tx, tx.buf
    ensures Ready(tx)
    ensures ServicePass(old(Regs(tx)), ticked, ready, room) == Pass(Regs(tx), sent)
  {
    if tx.sendPos == tx.sendTotal {
      if tx.txAckWait {
        AgeWait(tx, ticked);
      }
      if !tx.txAckWait && tx.sendPos == tx.sendTotal && ready.Some? {
        BuildNext(tx, ready.value);
      }
    }
    sent := SendMain(tx, room);
  }

  method AgeWait(tx: TxBuf, ticked: bool)
    requires Ready(tx) && tx.txAckWait && tx.sendPos == tx.sendTotal
    modifies tx`txAckTimer, tx`txRetries, tx`sendPos, tx`txAckWait
    ensures Ready(tx)
    ensures var t := old(Regs(tx)); Regs(tx) == Decided(t, Decide(t, ticked))
  {
    if ticked {
      tx.txAckTimer := (tx.txAckTimer + 1) % 0x100;
    }
    if tx.txAckTimer < STALE_TICKS {
      return;
    }
    if tx.txRetries >= MAX_RETRIES {
      tx.txAckWait := false;
      return;
    }
    tx.txRetries := (tx.txRetries + 1) % 0x100;
    tx.sendPos, tx.txAckTimer := 0, 0;
  }

  /** A builder fills in the payload, seals the frame and takes the next transport id. */
  method BuildNext(tx: TxBuf, f: Frame)
    requires Ready(tx) && Buildable(f)
    modifies tx, tx.buf
    ensures Ready(tx) && Regs(tx) == Built(old(Regs(tx)), f) && tx.sendTotal > 1
  {
    var n := |f.payload|;
    for x := 0 to n
      invariant Ready(tx) && tx.txNextId == old(tx.txNextId)
      invariant forall j :: 0 <= j < x ==> tx.buf[3 + j] == f.payload[j]
    {
      tx.buf[3 + x] := f.payload[x];
    }
    assert tx.buf[3..3 + n] == f.payload;
    tx.SealChunk(f.typ, n);
    tx.InjectTxId(f);
  }

  method SendMain(tx: TxBuf, room: nat) returns (sent: seq<byte>)
    requires Ready(tx)
    modifies tx`sendPos
    ensures Ready(tx) && SendBytes(old(Regs(tx)), room) == Pass(Regs(tx), sent)
  {
    ghost var from, quota := tx.sendPos, Quota(Regs(tx), room);
    sent := [];
    var y := 0;
    while tx.sendPos != tx.sendTotal && y != BYTES_PER_PASS && y != room
      invariant Ready(tx) && y <= quota && tx.sendPos == from + y
      invariant sent == tx.buf[from..tx.sendPos]
      decreases quota - y
    {
      sent := sent + [tx.buf[tx.sendPos]];
      tx.sendPos := tx.sendPos + 1;
      y := y + 1;
    }
  }

  /** The dedicated buffer for acknowledgments, and its five bytes on the line. */
  method SendAck(id: byte) returns (sent: seq<byte>)
    ensures sent == AckImage(id)
  {
    hide Xor, Xor2;
    var ackBuf := new byte[5];
    ackBuf[0], ackBuf[1], ackBuf[2], ackBuf[3] := SYNC, ACK, 1, id;
    ackBuf[4] := Xor2(Xor2(ackBuf[1], ackBuf[2]), ackBuf[3]);
    XorPair(ACK, 1);
    XorSnoc([ACK, 1], id);
    assert [ACK, 1] + [id] == [ACK, 1, id];
    sent := ackBuf[..];
  }

  method AckArrived(tx: TxBuf, payload: seq<byte>)
    requires Ready(tx)
    modifies tx`txAckWait
    ensures Ready(tx) && Regs(tx) == Released(old(Regs(tx)), GuardedAck(payload, tx.txAckId))
  {
    if |payload| == 2 && payload[0] == tx.txAckId && Xor2(payload[0], ACK_GUARD) == payload[1] {
      tx.txAckWait := false;
    }
  }

  /** A new inbound frame releases the wait only once the outbound frame is completely sent. */
  method ImplicitRelease(tx: TxBuf)
    requires Ready(tx)
    modifies tx`txAckWait
    ensures Ready(tx) && Regs(tx) == Released(old(Regs(tx)), old(Regs(tx)).Drained())
  {
    if tx.sendPos == tx.sendTotal {
      tx.txAckWait := false;
    }
  }

  method ClearLlmAckWait(tx: TxBuf)
    requires Ready(tx)
    modifies tx`txAckWait
    ensures Ready(tx) && Regs(tx) == Released(old(Regs(tx)), tx.buf[1] == LLM)
  {
    if tx.txAckWait && tx.buf[1] == LLM {
      tx.txAckWait := false;
    }
  }

  function Released(t: Tx, release: bool): Tx {
    t.(wait := t.wait && !release)
  }
}
