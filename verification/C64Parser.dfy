/** The C64's byte-at-a-time frame parser: the register machine, and the mode machine it refines. */
module C64Parser {
  import opened Wire
  import opened Frames
  import opened Streams

  /** Largest inbound length; $7C..$7F are kept for resynchronization. */
  const BRIDGE_FRAME_MAX: nat := 0x7B

  const RXBUF_LEN: nat := 128

  /** What the parser has understood so far.  Lost stands for a corrupted state byte. */
  datatype Mode =
    | Hunt
    | Sub
    | Len(sub: byte)
    | Pay(sub: byte, n: nat, got: seq<byte>)
    | Chk(sub: byte, got: seq<byte>)
    | Lost
  {
    predicate Valid() {
      match this
      case Len(sub) => sub <= BRIDGE_FRAME_MAX
      case Pay(sub, n, got) => sub <= BRIDGE_FRAME_MAX && |got| < n <= BRIDGE_FRAME_MAX && SevenBit(got)
      case Chk(sub, got) => sub <= BRIDGE_FRAME_MAX && |got| <= BRIDGE_FRAME_MAX && SevenBit(got)
      case _ => true
    }
  }

  datatype Reaction = Reaction(mode: Mode, dispatched: Option<Frame>)

  function React(m: Mode, raw: byte): (r: Reaction)
    requires m.Valid()
    ensures r.mode.Valid()
  {
    var b := Low7(raw);
    match m
    case Hunt => Reaction(if SyncLike(raw) then Sub else Hunt, None)
    case Sub => Reaction(if SyncLike(raw) then Sub else Len(b), None)
    case Len(sub) =>
      Reaction(if SyncLike(raw) then Sub else if b == 0 then Chk(sub, []) else Pay(sub, b, []), None)
    case Pay(sub, n, got) =>
      Reaction(if |got| + 1 == n then Chk(sub, got + [b]) else Pay(sub, n, got + [b]), None)
    case Chk(sub, got) =>
      if b == Xor([sub, |got|] + got) then Reaction(Hunt, Some(Frame(sub, got)))
      else Reaction(if SyncLike(raw) then Sub else Hunt, None)
    case Lost => Reaction(Hunt, None)
  }

  /** The receive buffer after a byte: only payload bytes are stored, each at its place in the payload. */
  function Stored(m: Mode, buf: seq<byte>, raw: byte): (b: seq<byte>)
    requires m.Valid() && |buf| == RXBUF_LEN
    ensures |b| == |buf|
  {
    if m.Pay? then buf[|m.got| := Low7(raw)] else buf
  }

  // ---- the register machine ----

  const STATE_HUNT: byte := 0
  const STATE_SUB: byte := 1
  const STATE_LEN: byte := 2
  const STATE_PAY: byte := 3
  const STATE_CHK: byte := 4

  class Parser {
    var parseState: byte
    var frameSub: byte
    var frameLen: byte
    var frameChk: byte
    var rxIndex: byte
    const rxBuf: array<byte>

    ghost predicate Valid()
      reads this, rxBuf
    {
      && rxBuf.Length == RXBUF_LEN
      && (parseState in {STATE_LEN, STATE_PAY, STATE_CHK} ==> frameSub <= BRIDGE_FRAME_MAX)
      && (parseState == STATE_LEN ==> frameChk == frameSub)
      && (parseState == STATE_PAY ==> rxIndex < frameLen)
      && (parseState == STATE_CHK ==> rxIndex == frameLen)
      && (parseState in {STATE_PAY, STATE_CHK} ==>
            && frameLen <= BRIDGE_FRAME_MAX
            && SevenBit(rxBuf[..rxIndex])
            && frameChk == Xor([frameSub, frameLen] + rxBuf[..rxIndex]))
    }

    ghost function Abs(): (m: Mode)
      requires Valid()
      reads this, rxBuf
      ensures m.Valid()
    {
      if parseState == STATE_HUNT then Hunt
      else if parseState == STATE_SUB then Sub
      else if parseState == STATE_LEN then Len(frameSub)
      else if parseState == STATE_PAY then Pay(frameSub, frameLen, rxBuf[..rxIndex])
      else if parseState == STATE_CHK then Chk(frameSub, rxBuf[..rxIndex])
      else Lost
    }

    constructor ()
      ensures Valid() && fresh(rxBuf) && Abs() == Hunt && forall i :: 0 <= i < RXBUF_LEN ==> rxBuf[i] == 0
    {
      parseState, frameSub, frameLen, frameChk, rxIndex := STATE_HUNT, 0, 0, 0, 0;
      rxBuf := new byte[RXBUF_LEN](_ => 0);
    }

    /** Feeds one received byte; hands back the frame when it is complete and its checksum matches. */
    method FrameRxByte(raw: byte) returns (dispatched: Option<Frame>)
      requires Valid()
      modifies this, rxBuf
      ensures Valid()
      ensures React(old(Abs()), raw) == Reaction(Abs(), dispatched)
      ensures rxBuf[..] == Stored(old(Abs()), old(rxBuf[..]), raw)
      ensures dispatched.Some? ==>
                var p := dispatched.value.payload; |p| <= BRIDGE_FRAME_MAX && rxBuf[..|p|] == p
    {
      dispatched := None;
      var a := Low7(raw);
      if parseState == STATE_HUNT {
        if a >= 0x7C {
          parseState := STATE_SUB;
        }
      } else if parseState == STATE_SUB {
        if a >= BRIDGE_FRAME_MAX + 1 {
          parseState := STATE_SUB;
        } else {
          frameSub, frameChk := a, a;
          parseState := STATE_LEN;
        }
      } else if parseState == STATE_LEN {
        ReadLength(a);
      } else if parseState == STATE_PAY {
        StorePayload(a);
      } else if parseState == STATE_CHK {
        if a == frameChk {
          dispatched := Some(Frame(frameSub, rxBuf[..frameLen]));
          parseState := STATE_HUNT;
        } else if a >= BRIDGE_FRAME_MAX + 1 {
          parseState := STATE_SUB;
        } else {
          parseState := STATE_HUNT;
        }
      } else {
        parseState := STATE_HUNT;
      }
    }

    method ReadLength(a: byte)
      requires Valid() && parseState == STATE_LEN && a < 0x80
      modifies this
      ensures Valid()
      ensures Abs() == if a > BRIDGE_FRAME_MAX then Sub
                       else if a == 0 then Chk(old(frameSub), [])
                       else Pay(old(frameSub), a, [])
      ensures rxBuf[..] == old(rxBuf[..])
    {
      hide Xor2, Xor;
      if a >= BRIDGE_FRAME_MAX + 1 {
        parseState := STATE_SUB;
        return;
      }
      frameLen := a;
      frameChk := Xor2(frameChk, a);
      rxIndex := 0;
      XorPair(frameSub, a);
      assert rxBuf[..0] == [];
      parseState := if frameLen == 0 then STATE_CHK else STATE_PAY;
    }

    method StorePayload(a: byte)
      requires Valid() && parseState == STATE_PAY && a < 0x80
      modifies this, rxBuf
      ensures Valid()
      ensures var got := old(rxBuf[..rxIndex]) + [a];
              Abs() == if |got| == old(frameLen) then Chk(old(frameSub), got)
                       else Pay(old(frameSub), old(frameLen), got)
      ensures rxBuf[..] == old(rxBuf[..][rxIndex := a])
    {
      hide Xor2, Xor;
      ghost var head, got := [frameSub, frameLen], rxBuf[..rxIndex];
      rxBuf[rxIndex] := a;
      frameChk := Xor2(frameChk, a);
      rxIndex := rxIndex + 1;
      assert rxBuf[..rxIndex] == got + [a];
      assert head + (got + [a]) == (head + got) + [a];
      XorSnoc(head + got, a);
      if rxIndex == frameLen {
        parseState := STATE_CHK;
      }
    }
  }
}
