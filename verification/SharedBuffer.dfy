/**
 * The C64's receive buffer is also where a chat message waits to be built into an LLM frame, so
 * whatever arrives in between can overwrite it.
 */
module SharedBuffer {
  import opened Wire
  import opened Frames
  import opened Streams
  import opened C64Parser
  import opened C64Streams

  /** A payload byte put into the buffer. */
  datatype Store = Store(at: nat, value: byte)

  /** Everything the parser stores while it is fed a string, in order. */
  function Stores(m: Mode, s: seq<byte>): seq<Store>
    requires m.Valid()
    decreases |s|
  {
    if s == [] then [] else
    (if m.Pay? then [Store(|m.got|, Low7(s[0]))] else []) + Stores(React(m, s[0]).mode, s[1..])
  }

  /** The value stored last at a place, if any was. */
  function LastAt(stores: seq<Store>, k: nat): Option<byte> {
    if stores == [] then None else
    var later := LastAt(stores[1..], k);
    if later.Some? then later else if stores[0].at == k then Some(stores[0].value) else None
  }

  lemma {:induction false} BufferAt(m: Mode, buf: seq<byte>, s: seq<byte>, k: nat)
    requires m.Valid() && |buf| == RXBUF_LEN && k < RXBUF_LEN
    ensures var last := LastAt(Stores(m, s), k);
            && BufferAfter(m, buf, s)[k] == (if last.Some? then last.value else buf[k])
            && (last.Some? ==> last.value < 0x80)
    decreases |s|
  {
    hide React;
    if s != [] {
      var m', rest := React(m, s[0]).mode, s[1..];
      BufferAt(m', Stored(m, buf, s[0]), rest, k);
      if m.Pay? {
        assert ([Store(|m.got|, Low7(s[0]))] + Stores(m', rest))[1..] == Stores(m', rest);
      } else {
        assert [] + Stores(m', rest) == Stores(m', rest);
      }
    }
  }

  /** A message waits behind the place of the transport id. */
  predicate Staged(buf: seq<byte>, msg: seq<byte>) {
    |msg| < |buf| && buf[1..1 + |msg|] == msg
  }

  /** No byte of the message ends up overwritten with another value. */
  predicate Spares(stores: seq<Store>, msg: seq<byte>) {
    forall k :: 1 <= k <= |msg| ==> LastAt(stores, k) in {None, Some(msg[k - 1])}
  }

  /** From any parser state and whatever arrives, a staged message survives exactly if it is spared. */
  lemma SurvivesExactly(m: Mode, buf: seq<byte>, s: seq<byte>, msg: seq<byte>)
    requires m.Valid() && |buf| == RXBUF_LEN && Staged(buf, msg)
    ensures Staged(BufferAfter(m, buf, s), msg) <==> Spares(Stores(m, s), msg)
  {
    hide BufferAfter, Stores, LastAt;
    var after, stores := BufferAfter(m, buf, s), Stores(m, s);
    forall k | 1 <= k <= |msg| ensures after[k] == msg[k - 1] <==> LastAt(stores, k) in {None, Some(msg[k - 1])} {
      BufferAt(m, buf, s, k);
      assert buf[1..1 + |msg|][k - 1] == buf[k];
    }
    PlaceByPlace(after, msg);
  }

  /** What is in the message's place afterwards is still seven-bit. */
  lemma StaysSevenBit(m: Mode, buf: seq<byte>, s: seq<byte>, msg: seq<byte>)
    requires m.Valid() && |buf| == RXBUF_LEN && Staged(buf, msg) && SevenBit(msg)
    ensures SevenBit(BufferAfter(m, buf, s)[1..1 + |msg|])
  {
    hide BufferAfter, Stores, LastAt;
    forall k | 1 <= k <= |msg| ensures BufferAfter(m, buf, s)[k] < 0x80 {
      BufferAt(m, buf, s, k);
      assert buf[1..1 + |msg|][k - 1] == buf[k];
    }
  }

  // ---- what whole frames do to the buffer ----

  lemma {:induction false} BufferConcat(m: Mode, buf: seq<byte>, a: seq<byte>, b: seq<byte>)
    requires m.Valid() && |buf| == RXBUF_LEN
    ensures BufferAfter(m, buf, a + b) == BufferAfter(Feed(m, a).mode, BufferAfter(m, buf, a), b)
    decreases |a|
  {
    hide React, Stored;
    if a == [] {
      assert a + b == b;
    } else {
      assert (a + b)[0] == a[0] && (a + b)[1..] == a[1..] + b;
      BufferConcat(React(m, a[0]).mode, Stored(m, buf, a[0]), a[1..], b);
    }
  }

  lemma {:induction false} PayloadOverlays(sub: byte, n: nat, got: seq<byte>, buf: seq<byte>, p: seq<byte>)
    requires Pay(sub, n, got).Valid() && |got| + |p| == n && |buf| == RXBUF_LEN
    ensures BufferAfter(Pay(sub, n, got), buf, p) == buf[..|got|] + Masked(p) + buf[n..]
    decreases |p|
  {
    hide Xor;
    var b, buf' := Low7(p[0]), buf[|got| := Low7(p[0])];
    assert Masked(p) == [b] + Masked(p[1..]);
    if |p| == 1 {
      assert p[1..] == [];
    } else {
      PayloadOverlays(sub, n, got + [b], buf', p[1..]);
    }
  }

  lemma NothingStored(m: Mode, buf: seq<byte>, c: byte)
    requires m.Valid() && !m.Pay? && |buf| == RXBUF_LEN
    ensures BufferAfter(m, buf, [c]) == buf
  {
    assert [c][1..] == [];
  }

  /** A frame-shaped string lays its payload over the front of the buffer, whether or not its checksum is right. */
  lemma FrameOverlays(m: Mode, buf: seq<byte>, w: seq<byte>, typ: byte, n: nat)
    requires Hungry(m) && |buf| == RXBUF_LEN
    requires Shaped(w, typ, n) && typ <= BRIDGE_FRAME_MAX && n <= BRIDGE_FRAME_MAX
    ensures BufferAfter(m, buf, w) == Masked(w)[3..n + 3] + buf[n..]
  {
    hide BufferAfter, Feed, React;
    var head, p, c := w[..3], w[3..n + 3], w[n + 3];
    ShapedParts(w, typ, n);
    FeedHead(m, head, typ, n);
    FeedRest(typ, n, p);
    HeadStoresNothing(m, buf, head, typ);
    BufferConcat(m, buf, head, p);
    FeedConcat(m, head, p);
    BufferConcat(m, buf, head + p, [c]);
    RestOverlays(typ, n, buf, p);
    NothingStored(Chk(typ, Masked(p)), Masked(p) + buf[n..], c);
  }

  lemma HeadStoresNothing(m: Mode, buf: seq<byte>, head: seq<byte>, typ: byte)
    requires Hungry(m) && |buf| == RXBUF_LEN
    requires |head| == 3 && SyncLike(head[0]) && Low7(head[1]) == typ <= BRIDGE_FRAME_MAX
    ensures BufferAfter(m, buf, head) == buf
  {
    hide BufferAfter;
    FeedByte(m, head[0]);
    FeedByte(Sub, head[1]);
    FeedConcat(m, [head[0]], [head[1]]);
    NothingStored(m, buf, head[0]);
    NothingStored(Sub, buf, head[1]);
    NothingStored(Len(typ), buf, head[2]);
    BufferConcat(m, buf, [head[0]], [head[1]]);
    BufferConcat(m, buf, [head[0]] + [head[1]], [head[2]]);
    assert head == [head[0]] + [head[1]] + [head[2]];
  }

  lemma RestOverlays(typ: byte, n: nat, buf: seq<byte>, p: seq<byte>)
    requires |p| == n <= BRIDGE_FRAME_MAX && typ <= BRIDGE_FRAME_MAX && |buf| == RXBUF_LEN
    ensures BufferAfter(if n == 0 then Chk(typ, []) else Pay(typ, n, []), buf, p) == Masked(p) + buf[n..]
  {
    if n == 0 {
      assert p == [] && Masked(p) + buf == buf && buf[0..] == buf;
    } else {
      PayloadOverlays(typ, n, [], buf, p);
      assert buf[..0] + Masked(p) == Masked(p);
    }
  }

  // ---- streams of frames ----

  /** What a segment lays over the front of the buffer: an intact frame its payload, a damaged one the bytes that came. */
  function Laid(seg: Segment): seq<byte> {
    match seg
    case Noise(_) => []
    case Intact(f, _) => f.payload
    case Damaged(f, w) => if |w| == |f.payload| + 4 then Masked(w)[3..|f.payload| + 3] else []
  }

  /** At a place of the buffer, the byte of the last frame long enough to reach it. */
  function LaidAt(segs: seq<Segment>, k: nat): Option<byte> {
    if segs == [] then None else
    var later := LaidAt(segs[1..], k);
    if later.Some? then later else if k < |Laid(segs[0])| then Some(Laid(segs[0])[k]) else None
  }

  /** At every place of the message the last frame long enough to reach it carries the message's byte. */
  predicate SparedBy(segs: seq<Segment>, msg: seq<byte>) {
    forall k :: 1 <= k <= |msg| ==> LaidAt(segs, k) in {None, Some(msg[k - 1])}
  }

  lemma SegmentOverlays(m: Mode, buf: seq<byte>, seg: Segment)
    requires Plausible(seg) && (!seg.Noise? ==> BridgeFrame(seg.frame))
    requires Hungry(m) && |buf| == RXBUF_LEN
    ensures |Laid(seg)| <= RXBUF_LEN && BufferAfter(m, buf, Bytes(seg)) == Laid(seg) + buf[|Laid(seg)|..]
  {
    hide BufferAfter, Xor;
    match seg
    case Noise(b) =>
      NothingStored(m, buf, b);
    case Intact(f, w) =>
      IntactShape(w, f);
      FrameOverlays(m, buf, w, f.typ, |f.payload|);
    case Damaged(f, w) =>
      DamagedShape(w, f);
      FrameOverlays(m, buf, w, f.typ, |f.payload|);
  }

  lemma {:induction false} StreamOverlays(m: Mode, buf: seq<byte>, segs: seq<Segment>, k: nat)
    requires C64Stream(segs) && Hungry(m) && |buf| == RXBUF_LEN && k < RXBUF_LEN
    requires m.Sub? && |segs| > 1 ==> !(segs[0].Noise? && segs[1].Noise?)
    requires m.Len? && |segs| > 0 ==> !segs[0].Noise?
    ensures var last := LaidAt(segs, k);
            BufferAfter(m, buf, Flat(segs))[k] == if last.Some? then last.value else buf[k]
    decreases |segs|
  {
    hide Plausible, BridgeFrame, React, EndsSyncLike, Feed, Laid, BufferAfter;
    if segs == [] {
      NothingFedTo(m, buf);
    } else {
      var seg, tail := segs[0], segs[1..];
      assert seg in segs;
      TailStream(segs);
      FeedOne(m, seg);
      SegmentOverlays(m, buf, seg);
      BufferConcat(m, buf, Bytes(seg), Flat(tail));
      StreamOverlays(Feed(m, Bytes(seg)).mode, BufferAfter(m, buf, Bytes(seg)), tail, k);
    }
  }

  lemma NothingFedTo(m: Mode, buf: seq<byte>)
    requires m.Valid() && |buf| == RXBUF_LEN
    ensures BufferAfter(m, buf, []) == buf
  {}

  /**
   * Whatever stream of intact, repeated and damaged frames arrives, a staged message survives
   * exactly if the frames spare it, which whoever sends them can tell beforehand.
   */
  lemma SurvivesFramesExactly(buf: seq<byte>, segs: seq<Segment>, msg: seq<byte>)
    requires C64Stream(segs) && |buf| == RXBUF_LEN && Staged(buf, msg)
    ensures Staged(BufferAfter(Hunt, buf, Flat(segs)), msg) <==> SparedBy(segs, msg)
    ensures Spares(Stores(Hunt, Flat(segs)), msg) <==> SparedBy(segs, msg)
  {
    hide C64Stream, BufferAfter, LaidAt, Stores, LastAt;
    SurvivesExactly(Hunt, buf, Flat(segs), msg);
    var after := BufferAfter(Hunt, buf, Flat(segs));
    forall k | 1 <= k <= |msg| ensures after[k] == msg[k - 1] <==> LaidAt(segs, k) in {None, Some(msg[k - 1])} {
      StreamOverlays(Hunt, buf, segs, k);
      assert buf[1..1 + |msg|][k - 1] == buf[k];
    }
    PlaceByPlace(after, msg);
  }

  lemma PlaceByPlace(buf: seq<byte>, msg: seq<byte>)
    requires |msg| < |buf|
    ensures Staged(buf, msg) <==> forall k :: 1 <= k <= |msg| ==> buf[k] == msg[k - 1]
  {
    if Staged(buf, msg) {
      assert forall k :: 1 <= k <= |msg| ==> buf[1..1 + |msg|][k - 1] == buf[k];
    } else {
      var j :| 0 <= j < |msg| && buf[1..1 + |msg|][j] != msg[j];
      assert buf[j + 1] != msg[j + 1 - 1];
    }
  }

  // ---- the failing input: the bridge's acknowledgments ----

  predicate AckWire(w: seq<byte>, id: byte) {
    Carries(w, Frame(ACK_TO_C64, AckToC64Payload(id)))
  }

  /** Acknowledgments of these ids, one after the other. */
  predicate AckWires(wires: seq<seq<byte>>, ids: seq<byte>) {
    |wires| == |ids| && forall i :: 0 <= i < |ids| ==> AckWire(wires[i], ids[i])
  }

  function Joined(wires: seq<seq<byte>>): seq<byte> {
    if wires == [] then [] else wires[0] + Joined(wires[1..])
  }

  lemma AckOverlays(buf: seq<byte>, w: seq<byte>, id: byte)
    requires |buf| == RXBUF_LEN && AckWire(w, id)
    ensures BufferAfter(Hunt, buf, w) == AckToC64Payload(id) + buf[2..] && Feed(Hunt, w).mode == Hunt
  {
    hide BufferAfter, Feed, Xor, Xor2;
    var f := Frame(ACK_TO_C64, AckToC64Payload(id));
    IntactShape(w, f);
    FrameOverlays(Hunt, buf, w, ACK_TO_C64, 2);
    FeedShaped(Hunt, w, ACK_TO_C64, 2);
  }

  /** After any acknowledgments the newest one's two bytes are in front, and the rest is as before. */
  lemma {:induction false} AcksOverlay(buf: seq<byte>, wires: seq<seq<byte>>, ids: seq<byte>)
    requires |buf| == RXBUF_LEN && ids != [] && AckWires(wires, ids)
    ensures BufferAfter(Hunt, buf, Joined(wires)) == AckToC64Payload(ids[|ids| - 1]) + buf[2..]
    decreases |ids|
  {
    hide BufferAfter, Feed, AckToC64Payload, AckWire;
    var w, id, rest := wires[0], ids[0], Joined(wires[1..]);
    AckOverlays(buf, w, id);
    BufferConcat(Hunt, buf, w, rest);
    var one := AckToC64Payload(id) + buf[2..];
    AckLength(id);
    if |ids| == 1 {
      NothingFedTo(Hunt, one);
    } else {
      AcksOverlay(one, wires[1..], ids[1..]);
      assert one[2..] == buf[2..];
    }
  }

  lemma AckLength(id: byte)
    ensures |AckToC64Payload(id)| == 2
  {
    hide Xor2;
  }

  /**
   * While a message waits, every acknowledgment replaces its first byte by the complemented id: it
   * survives exactly if it is empty or happens to begin with the newest one's.
   */
  lemma AcksDamageTheMessage(buf: seq<byte>, msg: seq<byte>, wires: seq<seq<byte>>, ids: seq<byte>)
    requires |buf| == RXBUF_LEN && Staged(buf, msg)
    requires ids != [] && AckWires(wires, ids)
    ensures var after := BufferAfter(Hunt, buf, Joined(wires));
            var guard := AckToC64Payload(ids[|ids| - 1])[1];
            && (msg != [] ==> after[1..1 + |msg|] == [guard] + msg[1..])
            && (Staged(after, msg) <==> msg == [] || msg[0] == guard)
  {
    hide BufferAfter, Xor2, AckWire, Joined;
    AcksOverlay(buf, wires, ids);
    if msg != [] {
      assert buf[1..1 + |msg|][1..] == buf[2..1 + |msg|] == msg[1..];
    }
  }

  /** Frames that carry nothing but their id spare every message. */
  lemma IdOnlyFramesSpare(buf: seq<byte>, msg: seq<byte>, w: seq<byte>, f: Frame)
    requires |buf| == RXBUF_LEN && Staged(buf, msg)
    requires Carries(w, f) && f.typ <= BRIDGE_FRAME_MAX && |f.payload| <= 1
    ensures Staged(BufferAfter(Hunt, buf, w), msg)
  {
    hide BufferAfter, Xor;
    IntactShape(w, f);
    FrameOverlays(Hunt, buf, w, f.typ, |f.payload|);
  }
}
