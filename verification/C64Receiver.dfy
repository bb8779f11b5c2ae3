/** The C64's gate for parsed frames: acknowledgments, echoes, stale ids, and what is acknowledged when. */
module C64Receiver {
  import opened Wire
  import opened Frames
  import opened TransportIds
  import opened ReliableLink
  import VerifiedSend

  /** The gate's registers as a value. */
  datatype Registers = Registers(
    rxLastId: byte, ackId: byte, ackPending: bool, deferredAck: bool, txAckId: byte, txAckWait: bool)

  /** What one frame does: the new registers, and the frame handed to the command handlers without its id. */
  datatype Passed = Passed(regs: Registers, command: Option<Frame>)

  function AckCurrent(r: Registers, id: byte): Registers {
    r.(ackId := id, ackPending := true)
  }

  /**
   * busy: a command is waiting for READY. with no program running, so TEXT is refused.
   * drained: the transmit buffer is completely sent, so a new inbound frame releases the wait.
   */
  function Gate(r: Registers, f: Frame, busy: bool, drained: bool): Passed {
    if f.typ == ACK_TO_C64 then
      Passed(if GuardedAck(f.payload, r.txAckId) then r.(txAckWait := false) else r, None)
    else if f.typ >= RESULT then Passed(r, None)
    else if f.payload == [] then Passed(r, Some(f))
    else
      var id, command := f.payload[0], Some(Frame(f.typ, f.payload[1..]));
      if Fresh(id, r.rxLastId) then
        var s := r.(rxLastId := id, txAckWait := r.txAckWait && !drained);
        if f.typ != TEXT then Passed(AckCurrent(s, id), command)
        else if busy then Passed(s, command)
        else Passed(s.(ackId := id, deferredAck := true), command)
      else
        Passed(if f.typ == TEXT && r.deferredAck then r else AckCurrent(r, id), None)
  }

  class Receiver {
    var rxLastId: byte
    var fdCurId: byte
    var ackId: byte
    var ackPending: bool
    var deferredAck: bool
    var txAckId: byte
    var txAckWait: bool

    function Regs(): Registers
      reads this
    {
      Registers(rxLastId, ackId, ackPending, deferredAck, txAckId, txAckWait)
    }

    constructor ()
      ensures Regs() == Registers(0, 0, false, false, 0, false) && fdCurId == 0
    {
      rxLastId, fdCurId, ackId, ackPending, deferredAck, txAckId, txAckWait := 0, 0, 0, false, false, 0, false;
    }

    method FrameDispatch(f: Frame, busy: bool, drained: bool) returns (command: Option<Frame>)
      modifies this
      ensures Gate(old(Regs()), f, busy, drained) == Passed(Regs(), command)
      ensures fdCurId == if f.typ != ACK_TO_C64 && f.typ < RESULT && f.payload != [] then f.payload[0] else old(fdCurId)
    {
      command := None;
      if f.typ == ACK_TO_C64 {
        if |f.payload| == 2 && f.payload[0] == txAckId && Xor2(f.payload[0], ACK_GUARD) == f.payload[1] {
          txAckWait := false;
        }
        return;
      }
      if f.typ >= RESULT {
        return;
      }
      if f.payload == [] {
        return Some(f);
      }
      fdCurId := f.payload[0];
      var accept := true;
      if rxLastId != 0 {
        if fdCurId == rxLastId {
          accept := false;
        } else {
          var a := if fdCurId >= rxLastId then fdCurId else Adc(fdCurId, 127);
          accept := Sbc(a, rxLastId) < 64;
        }
      }
      if !accept {
        if f.typ == TEXT && deferredAck {
          return;
        }
        QueueAckCurrent();
        return;
      }
      rxLastId := fdCurId;
      if drained {
        txAckWait := false;
      }
      if f.typ == TEXT {
        if !busy {
          ackId, deferredAck := fdCurId, true;
        }
      } else {
        QueueAckCurrent();
      }
      command := Some(Frame(f.typ, f.payload[1..]));
    }

    /** The sender waits for the acknowledgment of a new frame. */
    method AwaitAck(id: byte)
      modifies `txAckId, `txAckWait
      ensures txAckId == id && txAckWait
    {
      txAckId, txAckWait := id, true;
    }

    method QueueAckCurrent()
      modifies this
      ensures Regs() == AckCurrent(old(Regs()), fdCurId) && fdCurId == old(fdCurId)
    {
      ackId, ackPending := fdCurId, true;
    }
  }

  /** Registers r are what the abstract system's C64 half looks like in seven-bit ids. */
  predicate Represents(r: Registers, s: VerifiedSend.System) {
    && r.rxLastId == s.rx.last
    && r.ackPending == s.ackPending
    && r.deferredAck == s.deferred
    && (s.ackPending || s.deferred ==> r.ackId == IdOf(s.ack))
  }

  /** The gate treats the n-th bridge frame as the abstract receiver does, and hands it on exactly when accepted. */
  lemma GateRefines(isText: nat -> bool, r: Registers, s: VerifiedSend.System, n: nat, f: Frame, busy: bool, drained: bool)
    requires Represents(r, s)
    requires f.typ < RESULT && f.typ != ACK_TO_C64 && (f.typ == TEXT <==> isText(n))
    requires f.payload != [] && f.payload[0] == IdOf(n)
    ensures var t := VerifiedSend.Dispatch(isText, s, n, busy);
            var g := Gate(r, f, busy, drained);
            && Represents(g.regs, t)
            && (g.command == Some(Frame(f.typ, f.payload[1..])) <==> t.rx.accepted == s.rx.accepted + [n])
            && (g.command == None <==> t.rx.accepted == s.rx.accepted)
  {
    hide Xor2, IdOf, C64Ahead;
    assert s.rx.accepted + [n] != s.rx.accepted;
  }

  /** A frame without an id is handed on and leaves no trace; one of the C64's own types is an echo and is dropped. */
  lemma OutsideTheProtocol(r: Registers, f: Frame, busy: bool, drained: bool)
    requires f.typ != ACK_TO_C64 && (f.payload == [] || f.typ >= RESULT)
    ensures Gate(r, f, busy, drained) == Passed(r, if f.typ >= RESULT then None else Some(f))
  {}

  /** An acknowledgment built for one id never releases another. */
  lemma GuardSelects(id: byte, pending: byte)
    requires id < 0x80
    ensures GuardedAck(AckToC64Payload(id), pending) <==> id == pending
  {
    hide Xor2;
  }

  /** Nor does it after any single byte of it was misread. */
  lemma GuardCatchesOneByte(id: byte, pending: byte, p: seq<byte>, k: nat)
    requires id < 0x80 && |p| == 2 && k < 2
    requires p[k] != AckToC64Payload(id)[k] && p[1 - k] == AckToC64Payload(id)[1 - k]
    ensures !GuardedAck(p, pending)
  {
    hide Xor2;
    if k == 0 && Xor2(id, ACK_GUARD) == Xor2(pending, ACK_GUARD) {
      Xor2Injective(ACK_GUARD, id, pending);
    }
  }
}
