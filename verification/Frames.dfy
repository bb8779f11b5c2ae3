/** Frames, their wire form, and the helpers that put a transport id in front of a payload. */
module Frames {
  import opened Wire

  datatype Option<+T> = None | Some(value: T)

  datatype Frame = Frame(typ: byte, payload: seq<byte>)

  // bridge to C64
  const MSG: byte := 0x4D
  const EXEC: byte := 0x45
  const STOP: byte := 0x4B
  const STATUSQ: byte := 0x51
  const TEXT: byte := 0x54
  const DONE: byte := 0x44
  const SCREENSHOT: byte := 0x50
  const ACK_TO_C64: byte := 0x42

  // C64 to bridge
  const RESULT: byte := 0x60
  const SYSTEM: byte := 0x61
  const STATUS: byte := 0x62
  const LLM: byte := 0x63
  const ERROR: byte := 0x65
  const USER: byte := 0x66
  const ACK: byte := 0x67

  predicate KnownType(t: byte) {
    t in {MSG, EXEC, STOP, STATUSQ, TEXT, DONE, SCREENSHOT, ACK_TO_C64,
          ACK, RESULT, STATUS, USER, LLM, ERROR, SYSTEM}
  }

  /** The C64 frames that carry a transport id in their first payload byte. */
  predicate ReliableC64(t: byte) {
    t in {USER, STATUS, RESULT, ERROR, LLM, SYSTEM}
  }

  /** A frame that fits in seven-bit bytes, so that it can be recovered exactly. */
  predicate Clean(f: Frame) {
    f.typ < 0x80 && |f.payload| < 0x80 && SevenBit(f.payload)
  }

  /** Type, length, payload and checksum. */
  function Body(f: Frame): (b: seq<byte>)
    requires |f.payload| < 0x100
    ensures |b| == |f.payload| + 3
  {
    var head := [f.typ, |f.payload|] + f.payload;
    head + [Xor(head)]
  }

  /** The wire bytes w spell frame f once bit 7 of every byte is dropped. */
  predicate Carries(w: seq<byte>, f: Frame) {
    Clean(f) && Masked(w) == [Low7(SYNC)] + Body(f)
  }

  function Clipped(p: seq<byte>): seq<byte> {
    if |p| > 255 then p[..255] else p
  }

  /** Everything before the checksum. */
  function Laid(typ: byte, p: seq<byte>): (l: seq<byte>)
    requires |p| < 0x100
  {
    [SYNC, typ, |p|] + p
  }

  /** The seven-bit checksum over type, length and payload. */
  function Checksum(typ: byte, p: seq<byte>): byte
    requires |p| < 0x100
  {
    Xor(Masked([typ, |p|] + p))
  }

  function Encoded(f: Frame): seq<byte> {
    var p := Clipped(f.payload);
    Laid(f.typ, p) + [Checksum(f.typ, p)]
  }

  method Encode(f: Frame) returns (buf: array<byte>)
    ensures fresh(buf)
    ensures buf[..] == Encoded(f)
  {
    hide Xor2, Xor;
    var n := |f.payload|;
    if n > 255 {
      n := 255;
    }
    buf := new byte[4 + n];
    buf[0], buf[1], buf[2] := SYNC, f.typ, n;
    var chk := Xor2(Low7(f.typ), Low7(n));
    ghost var m := Summands(f, n);
    XorPrefix(m, 2);
    for i := 0 to n
      invariant buf[0] == SYNC && buf[1] == f.typ && buf[2] == n
      invariant forall j :: 0 <= j < i ==> buf[3 + j] == f.payload[j]
      invariant chk == Xor(m[..2 + i])
    {
      buf[3 + i] := f.payload[i];
      chk := Xor2(chk, Low7(f.payload[i]));
      XorPrefix(m, 3 + i);
    }
    buf[3 + n] := chk;
    assert m[..2 + n] == m;
    EncodedAt(f, n, m, buf[..]);
  }

  /** The masked bytes that the checksum runs over. */
  lemma Summands(f: Frame, n: nat) returns (m: seq<byte>)
    requires n < 0x100 && n <= |f.payload|
    ensures |m| == 2 + n && m[0] == Low7(f.typ) && m[1] == Low7(n)
    ensures forall j :: 0 <= j < n ==> m[2 + j] == Low7(f.payload[j])
  {
    m := Masked([f.typ, n] + f.payload[..n]);
  }

  /** The encoding, place by place. */
  lemma EncodedAt(f: Frame, n: nat, m: seq<byte>, s: seq<byte>)
    requires n == |Clipped(f.payload)|
    requires |m| == 2 + n && m[0] == Low7(f.typ) && m[1] == Low7(n)
    requires forall j :: 0 <= j < n ==> m[2 + j] == Low7(f.payload[j])
    requires |s| == 4 + n && s[0] == SYNC && s[1] == f.typ && s[2] == n
    requires forall j :: 0 <= j < n ==> s[3 + j] == f.payload[j]
    requires s[3 + n] == Xor(m)
    ensures s == Encoded(f)
  {
    MaskedAt(f.typ, Clipped(f.payload), m);
    LaidAt(f.typ, Clipped(f.payload), Xor(m), s);
  }

  lemma MaskedAt(typ: byte, p: seq<byte>, m: seq<byte>)
    requires |p| < 0x100
    requires |m| == 2 + |p| && m[0] == Low7(typ) && m[1] == Low7(|p|)
    requires forall j :: 0 <= j < |p| ==> m[2 + j] == Low7(p[j])
    ensures m == Masked([typ, |p|] + p)
  {}

  lemma LaidAt(typ: byte, p: seq<byte>, x: byte, s: seq<byte>)
    requires |p| < 0x100
    requires |s| == 4 + |p| && s[0] == SYNC && s[1] == typ && s[2] == |p|
    requires forall j :: 0 <= j < |p| ==> s[3 + j] == p[j]
    requires s[3 + |p|] == x
    ensures s == Laid(typ, p) + [x]
  {}

  lemma CleanChecksum(f: Frame)
    requires Clean(f)
    ensures Body(f) == [f.typ, |f.payload|] + f.payload + [Checksum(f.typ, f.payload)]
    ensures SevenBit(Body(f))
  {
    var head := [f.typ, |f.payload|] + f.payload;
    MaskedSevenBit(head);
    XorSevenBit(head);
  }

  lemma EncodedCarries(f: Frame)
    requires Clean(f)
    ensures Encoded(f) == [SYNC] + Body(f)
    ensures Carries(Encoded(f), f)
  {
    CleanChecksum(f);
    assert Laid(f.typ, f.payload) == [SYNC] + ([f.typ, |f.payload|] + f.payload);
    MaskedSevenBit(Body(f));
    MaskedConcat([SYNC], Body(f));
  }

  /** A wire string spells at most one frame. */
  lemma CarriesOne(w: seq<byte>, f: Frame, g: Frame)
    requires Carries(w, f) && Carries(w, g)
    ensures f == g
  {
    var m := Masked(w);
    assert m[1] == f.typ == g.typ;
    assert m[3..|m| - 1] == f.payload == g.payload;
  }

  /** What is left of a frame on a line that drops bit 7. */
  function Dulled(f: Frame): Frame {
    Frame(f.typ, Masked(f.payload))
  }

  /** Whatever the payload bytes, the raw form of a frame spells its seven-bit remainder. */
  lemma RawCarriesDulled(f: Frame)
    requires f.typ < 0x80 && |f.payload| < 0x80
    ensures Carries([SYNC] + Body(f), Dulled(f))
  {
    hide Xor, Xor2;
    var head, n := [f.typ, |f.payload|] + f.payload, |f.payload|;
    MaskedSevenBit(f.payload);
    LowXor(head);
    MaskedConcat([f.typ, n], f.payload);
    assert Masked([f.typ, n]) == [f.typ, n];
    MaskedConcat(head, [Xor(head)]);
    MaskedConcat([SYNC], Body(f));
    assert Masked([SYNC]) == [Low7(SYNC)];
    assert Masked([Xor(head)]) == [Low7(Xor(head))];
  }

  method PrependID(id: byte, payload: seq<byte>) returns (out: array<byte>)
    ensures fresh(out)
    ensures out[..] == [id] + payload
  {
    out := new byte[1 + |payload|];
    out[0] := id;
    for i := 0 to |payload|
      invariant out[0] == id
      invariant out[1..1 + i] == payload[..i]
    {
      out[1 + i] := payload[i];
    }
  }

  function WithID(id: byte, f: Frame): Frame {
    Frame(f.typ, [id] + f.payload)
  }

  datatype Stripped = Stripped(id: byte, body: seq<byte>, ok: bool)

  function StripID(payload: seq<byte>): Stripped {
    if |payload| < 1 then Stripped(0, payload, false) else Stripped(payload[0], payload[1..], true)
  }

  function ExtractAckID(payload: seq<byte>): Option<byte> {
    if |payload| < 1 then None else Some(payload[0])
  }

  const ACK_GUARD: byte := 0x7F

  /** The guarded two-byte acknowledgment the bridge sends. */
  function AckToC64Payload(id: byte): seq<byte> {
    [Low7(id), Xor2(Low7(id), ACK_GUARD)]
  }

  /** The payload is the pending id and its complement. */
  predicate GuardedAck(p: seq<byte>, id: byte) {
    |p| == 2 && p[0] == id && p[1] == Xor2(id, ACK_GUARD)
  }

  /** Which end a type belongs to shows in its number; all of the C64's but ACK carry an id. */
  lemma TypesByNumber(t: byte)
    ensures ReliableC64(t) ==> KnownType(t) && t >= RESULT
    ensures KnownType(t) && t >= RESULT ==> (ReliableC64(t) <==> t != ACK)
    ensures t < 0x80 ==> (KnownType(t) <==> t as char in "MEKQTDPB`abcefg")
  {}

  /** The second byte is the first one's complement in seven bits. */
  lemma GuardComplements(id: byte)
    requires id < 0x80
    ensures |AckToC64Payload(id)| == 2 && AckToC64Payload(id)[0] == id
    ensures AckToC64Payload(id)[0] + AckToC64Payload(id)[1] == 0x7F
  {
    hide Xor2;
    Xor2Complements(id);
  }
}
