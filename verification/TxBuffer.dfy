/** The C64's transmit buffer: frames are built in place, then shifted by one byte to take a transport id. */
module TxBuffer {
  import opened Wire
  import opened Frames
  import opened TransportIds

  const TXBUF_LEN: nat := 128

  class TxBuf {
    const buf: array<byte>
    var sendPos: nat
    var sendTotal: nat
    var frameChk: byte
    var txNextId: byte
    var txAckId: byte
    var txAckWait: bool
    var txAckTimer: byte
    var txRetries: byte

    ghost predicate Valid()
      reads this
    {
      && buf.Length == TXBUF_LEN
      && sendPos <= sendTotal <= TXBUF_LEN
      && 1 <= txNextId <= 0x7F
    }

    /** The buffer holds exactly frame f, and frameChk its checksum. */
    ghost predicate Holds(f: Frame)
      reads this, buf
    {
      && buf.Length == TXBUF_LEN
      && |f.payload| + 4 <= TXBUF_LEN
      && sendTotal == |f.payload| + 4
      && buf[..sendTotal] == [SYNC] + Body(f)
      && frameChk == Body(f)[|f.payload| + 2]
    }

    constructor ()
      ensures Valid() && fresh(buf)
      ensures sendPos == sendTotal == 0 && txNextId == 1 && !txAckWait
      ensures txAckId == 0 && txAckTimer == 0 && txRetries == 0 && buf[1] == 0
    {
      buf := new byte[TXBUF_LEN](_ => 0);
      sendPos, sendTotal, frameChk := 0, 0, 0;
      txNextId, txAckId, txAckWait, txAckTimer, txRetries := 1, 0, false, 0, 0;
    }

    /** Status, user-text and error frames: header, copied payload, running checksum. */
    method BuildFrame(typ: byte, src: array<byte>, off: nat, len: byte)
      requires Valid() && src != buf
      requires off + len <= src.Length && len + 4 <= TXBUF_LEN
      modifies buf, `sendPos, `sendTotal, `frameChk
      ensures Valid() && sendPos == 0
      ensures Holds(Frame(typ, old(src[off..off + len])))
    {
      hide Xor2, Xor;
      ghost var f := Frame(typ, src[off..off + len]);
      ghost var wire := Layout(f);
      buf[0], buf[1], buf[2] := SYNC, typ, len;
      frameChk := Xor2(typ, len);
      SumStart(wire);
      CopyPayload(3, src, off, len, wire);
      buf[3 + len] := frameChk;
      sendTotal, sendPos := len + 4, 0;
      HeldAt(f, wire, buf[..sendTotal], frameChk);
    }

    /** A typed message for the LLM: the event type goes in front of the body. */
    method GuardBuildLlmMsg(event: byte, src: array<byte>, off: nat, len: byte)
      requires Valid() && src != buf
      requires off + len <= src.Length && len + 5 <= TXBUF_LEN
      modifies buf, `sendPos, `sendTotal, `frameChk
      ensures Valid() && sendPos == 0
      ensures Holds(Frame(LLM, [event] + old(src[off..off + len])))
    {
      hide Xor2, Xor;
      ghost var f := Frame(LLM, [event] + src[off..off + len]);
      ghost var wire := Layout(f);
      assert wire[3] == event && wire[4..4 + len] == src[off..off + len] by {
        assert f.payload == wire[3..4 + len];
        assert f.payload[1..] == src[off..off + len];
      }
      buf[0], buf[1], buf[2], buf[3] := SYNC, LLM, len + 1, event;
      frameChk := Xor2(Xor2(LLM, len + 1), event);
      SumStart(wire);
      SumStep(wire, 3);
      CopyPayload(4, src, off, len, wire);
      buf[4 + len] := frameChk;
      sendTotal, sendPos := len + 5, 0;
      HeldAt(f, wire, buf[..sendTotal], frameChk);
    }

    /** Chunk builders lay out the payload first and then run the checksum over the whole buffer. */
    method SealChunk(typ: byte, len: byte)
      requires Valid() && len + 4 <= TXBUF_LEN
      modifies buf, `sendPos, `sendTotal, `frameChk
      ensures Valid() && sendPos == 0
      ensures Holds(Frame(typ, old(buf[3..3 + len])))
    {
      hide Xor2, Xor;
      ghost var f := Frame(typ, buf[3..3 + len]);
      ghost var wire := Layout(f);
      buf[0], buf[1], buf[2] := SYNC, typ, len;
      frameChk := Xor2(typ, len);
      SumStart(wire);
      assert buf[3..3 + len] == f.payload;
      for x := 0 to len
        invariant forall j :: 0 <= j < 3 + len ==> buf[j] == wire[j]
        invariant frameChk == Xor(wire[1..3 + x])
      {
        frameChk := Xor2(frameChk, buf[3 + x]);
        SumStep(wire, 3 + x);
      }
      buf[3 + len] := frameChk;
      sendTotal, sendPos := len + 4, 0;
      HeldAt(f, wire, buf[..sendTotal], frameChk);
    }

    /** Inserts the next transport id in front of the payload and mends length and checksum. */
    method InjectTxId(ghost f: Frame)
      requires Valid() && Holds(f) && |f.payload| + 5 <= TXBUF_LEN
      modifies this, buf
      ensures Valid() && sendPos == old(sendPos)
      ensures Holds(WithID(old(txNextId), f))
      ensures txAckId == old(txNextId) && txAckWait && txAckTimer == 0 && txRetries == 0
      ensures txNextId == NextTxId(old(txNextId))
    {
      hide Xor2, Xor;
      ghost var was := buf[..];
      HeldParts(f, was, frameChk);
      var len := buf[2];
      ShiftRight(len);
      buf[3] := txNextId;
      var partial := Xor2(len, frameChk);
      buf[2] := len + 1;
      frameChk := Xor2(Xor2(partial, len + 1), txNextId);
      buf[4 + len] := frameChk;
      sendTotal := sendTotal + 1;
      InjectedSum(f, txNextId);
      InjectedAt(f, txNextId, was, buf[..], frameChk);
      AwaitAck();
    }

    /** The shift loop: payload and checksum move up one place, last byte first. */
    method ShiftRight(len: byte)
      requires buf.Length == TXBUF_LEN && len + 5 <= TXBUF_LEN
      modifies buf
      ensures forall j :: 0 <= j < 3 ==> buf[j] == old(buf[j])
      ensures forall j :: 4 <= j < 5 + len ==> buf[j] == old(buf[j - 1])
    {
      var x: int := len;
      while x >= 0
        invariant -1 <= x <= len
        invariant forall j :: 0 <= j <= 3 + x ==> buf[j] == old(buf[j])
        invariant forall j :: 4 + x < j < 5 + len ==> buf[j] == old(buf[j - 1])
      {
        buf[4 + x] := buf[3 + x];
        x := x - 1;
      }
    }

    /** Starts the wait for the acknowledgment of the id just used and advances the counter. */
    method AwaitAck()
      requires Valid()
      modifies `txAckId, `txAckWait, `txAckTimer, `txRetries, `txNextId
      ensures Valid()
      ensures txAckId == old(txNextId) && txAckWait && txAckTimer == 0 && txRetries == 0
      ensures txNextId == NextTxId(old(txNextId))
    {
      txAckId, txAckWait, txAckTimer, txRetries := txNextId, true, 0, 0;
      txNextId := (txNextId + 1) % 0x100;
      if txNextId >= 0x80 {
        txNextId := 1;
      }
    }

    /** The copy loop: bytes go to buf[at..] and into the running checksum. */
    method CopyPayload(at: nat, src: array<byte>, off: nat, len: byte, ghost wire: seq<byte>)
      requires buf.Length == TXBUF_LEN && src != buf
      requires 3 <= at && at + len < TXBUF_LEN && |wire| > at + len
      requires off + len <= src.Length && src[off..off + len] == wire[at..at + len]
      requires frameChk == Xor(wire[1..at])
      modifies buf, `frameChk
      ensures forall j :: 0 <= j < at ==> buf[j] == old(buf[j])
      ensures forall j :: at <= j < at + len ==> buf[j] == wire[j]
      ensures frameChk == Xor(wire[1..at + len])
    {
      hide Xor2, Xor;
      ghost var p := src[off..off + len];
      for x := 0 to len
        invariant src[off..off + len] == p
        invariant forall j :: 0 <= j < at ==> buf[j] == old(buf[j])
        invariant forall j :: at <= j < at + x ==> buf[j] == wire[j]
        invariant frameChk == Xor(wire[1..at + x])
      {
        var a := src[off + x];
        assert a == p[x] == wire[at + x];
        buf[at + x] := a;
        frameChk := Xor2(frameChk, a);
        SumStep(wire, at + x);
      }
    }
  }

  /** A frame in the buffer, place by place. */
  ghost predicate Spells(wire: seq<byte>, f: Frame) {
    && |wire| == |f.payload| + 4
    && wire[0] == SYNC && wire[1] == f.typ && wire[2] == |f.payload|
    && wire[3..|f.payload| + 3] == f.payload
    && wire[|f.payload| + 3] == Xor(wire[1..|f.payload| + 3])
  }

  lemma Layout(f: Frame) returns (wire: seq<byte>)
    requires |f.payload| < 0x100
    ensures Spells(wire, f)
  {
    var head := [f.typ, |f.payload|] + f.payload;
    wire := [SYNC] + head + [Xor(head)];
    assert wire[1..|f.payload| + 3] == head;
    assert wire[3..|f.payload| + 3] == f.payload;
  }

  lemma HeldParts(f: Frame, s: seq<byte>, chk: byte)
    requires |f.payload| + 4 <= |s| && |f.payload| < 0x100
    requires s[..|f.payload| + 4] == [SYNC] + Body(f) && chk == Body(f)[|f.payload| + 2]
    ensures s[0] == SYNC && s[1] == f.typ && s[2] == |f.payload|
    ensures s[3..|f.payload| + 3] == f.payload
    ensures chk == Xor([f.typ, |f.payload|] + f.payload)
  {
    var w := s[..|f.payload| + 4];
    assert forall i :: 0 <= i < |f.payload| ==> w[3 + i] == f.payload[i];
    assert w[0] == SYNC && w[1] == f.typ && w[2] == |f.payload|;
  }

  /** Old checksum, old length, new length and id combine to the new checksum. */
  lemma InjectedSum(f: Frame, id: byte)
    requires |f.payload| < 0xFF
    ensures var n := |f.payload|;
            Xor2(Xor2(Xor2(n, Xor([f.typ, n] + f.payload)), n + 1), id) == Xor([f.typ, n + 1] + ([id] + f.payload))
  {
    var n, p := |f.payload|, f.payload;
    var x := Xor(p);
    XorConcat([f.typ, n], p);
    XorPair(f.typ, n);
    XorConcat([f.typ, n + 1], [id] + p);
    XorPair(f.typ, n + 1);
    XorConcat([id], p);
    XorOne(id);
    Regroup(f.typ, n, n + 1, id, x);
  }

  lemma Regroup(t: byte, n: byte, m: byte, id: byte, x: byte)
    ensures Xor2(Xor2(Xor2(n, Xor2(Xor2(t, n), x)), m), id) == Xor2(Xor2(t, m), Xor2(id, x))
  {
    // n cancels, leaving t ^ x
    Xor2Laws(t, n, x);
    Xor2Laws(n, t, x);
    Xor2Laws(n, Xor2(t, x), 0);
    // (t ^ x) ^ m ^ id, regrouped
    Xor2Laws(t, x, m);
    Xor2Laws(x, m, 0);
    Xor2Laws(t, m, x);
    Xor2Laws(Xor2(t, m), x, id);
    Xor2Laws(x, id, 0);
  }

  lemma InjectedAt(f: Frame, id: byte, was: seq<byte>, now: seq<byte>, chk: byte)
    requires |f.payload| + 5 <= |was| == |now| && |f.payload| < 0xFF
    requires was[0] == SYNC && was[1] == f.typ && was[3..|f.payload| + 3] == f.payload
    requires now[0] == was[0] && now[1] == was[1] && now[2] == |f.payload| + 1 && now[3] == id
    requires forall j :: 4 <= j < 4 + |f.payload| ==> now[j] == was[j - 1]
    requires now[4 + |f.payload|] == chk == Xor([f.typ, |f.payload| + 1] + ([id] + f.payload))
    ensures now[..|f.payload| + 5] == [SYNC] + Body(WithID(id, f))
    ensures Body(WithID(id, f))[|f.payload| + 3] == chk
  {
    hide Xor2, Xor;
    var n := |f.payload|;
    assert now[4..4 + n] == was[3..3 + n];
    assert now[..n + 5] == [now[0]] + ([now[1], now[2]] + ([now[3]] + now[4..4 + n])) + [now[4 + n]];
  }

  lemma SumStart(wire: seq<byte>)
    requires |wire| >= 3
    ensures Xor(wire[1..3]) == Xor2(wire[1], wire[2])
  {
    XorPair(wire[1], wire[2]);
    assert wire[1..3] == [wire[1], wire[2]];
  }

  lemma SumStep(wire: seq<byte>, k: nat)
    requires 1 <= k < |wire|
    ensures Xor(wire[1..k + 1]) == Xor2(Xor(wire[1..k]), wire[k])
  {
    assert wire[1..k + 1] == wire[1..k] + [wire[k]];
    XorSnoc(wire[1..k], wire[k]);
  }

  lemma HeldAt(f: Frame, wire: seq<byte>, s: seq<byte>, chk: byte)
    requires |f.payload| < 0x100 && Spells(wire, f)
    requires |s| == |wire| && s[|s| - 1] == chk == Xor(wire[1..|wire| - 1])
    requires forall j :: 0 <= j < |s| - 1 ==> s[j] == wire[j]
    ensures s == [SYNC] + Body(f)
    ensures Body(f)[|f.payload| + 2] == chk
  {
    hide Xor2, Xor;
    var head := [f.typ, |f.payload|] + f.payload;
    assert wire[1..|wire| - 1] == head by {
      assert wire[1..|wire| - 1] == [wire[1], wire[2]] + wire[3..|wire| - 1];
    }
    assert s == wire == [wire[0]] + wire[1..|wire| - 1] + [chk];
  }
}
