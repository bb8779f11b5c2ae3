/** What the C64 parser makes of whole streams. */
module C64Streams {
  import opened Wire
  import opened Frames
  import opened Streams
  import opened C64Parser
  import GoCodec
  import GoStreams

  datatype Heard = Heard(mode: Mode, frames: seq<Frame>)

  /** Parsing a string from mode m: the final mode and the frames dispatched on the way. */
  function Feed(m: Mode, s: seq<byte>): (h: Heard)
    requires m.Valid()
    ensures h.mode.Valid()
    decreases |s|
  {
    if s == [] then Heard(m, []) else
    var r := React(m, s[0]);
    var h := Feed(r.mode, s[1..]);
    Heard(h.mode, (if r.dispatched == None then [] else [r.dispatched.value]) + h.frames)
  }

  /** What the string leaves in the receive buffer. */
  function BufferAfter(m: Mode, buf: seq<byte>, s: seq<byte>): (b: seq<byte>)
    requires m.Valid() && |buf| == RXBUF_LEN
    ensures |b| == |buf|
    decreases |s|
  {
    if s == [] then buf else BufferAfter(React(m, s[0]).mode, Stored(m, buf, s[0]), s[1..])
  }

  /** The register machine, fed a whole string. */
  method ParseStream(p: Parser, s: seq<byte>) returns (frames: seq<Frame>)
    requires p.Valid()
    modifies p, p.rxBuf
    ensures p.Valid()
    ensures Feed(old(p.Abs()), s) == Heard(p.Abs(), frames)
    ensures p.rxBuf[..] == BufferAfter(old(p.Abs()), old(p.rxBuf[..]), s)
  {
    hide React, Stored, Feed, BufferAfter, Xor;
    frames := [];
    ghost var m, buf := p.Abs(), p.rxBuf[..];
    FeedNothing(m, s);
    for i := 0 to |s|
      invariant p.Valid()
      invariant Feed(m, s) == Heard(Feed(p.Abs(), s[i..]).mode, frames + Feed(p.Abs(), s[i..]).frames)
      invariant BufferAfter(m, buf, s) == BufferAfter(p.Abs(), p.rxBuf[..], s[i..])
    {
      ghost var soFar := frames;
      FeedFrom(p.Abs(), p.rxBuf[..], s, i);
      var d := p.FrameRxByte(s[i]);
      if d.Some? {
        frames := frames + [d.value];
      }
      Regrouped(soFar, d, Feed(p.Abs(), s[i + 1..]).frames);
    }
    FeedEnd(p.Abs(), p.rxBuf[..], s);
  }

  lemma FeedFrom(m: Mode, buf: seq<byte>, s: seq<byte>, i: nat)
    requires m.Valid() && |buf| == RXBUF_LEN && i < |s|
    ensures var r := React(m, s[i]);
            var h := Feed(r.mode, s[i + 1..]);
            && Feed(m, s[i..]) == Heard(h.mode, (if r.dispatched == None then [] else [r.dispatched.value]) + h.frames)
            && BufferAfter(m, buf, s[i..]) == BufferAfter(r.mode, Stored(m, buf, s[i]), s[i + 1..])
  {
    hide React, Stored;
    assert s[i..][1..] == s[i + 1..];
  }

  lemma FeedEnd(m: Mode, buf: seq<byte>, s: seq<byte>)
    requires m.Valid() && |buf| == RXBUF_LEN
    ensures Feed(m, s[|s|..]) == Heard(m, []) && BufferAfter(m, buf, s[|s|..]) == buf
  {}

  lemma Regrouped(a: seq<Frame>, d: Option<Frame>, b: seq<Frame>)
    ensures a + ((if d == None then [] else [d.value]) + b) == (if d == None then a else a + [d.value]) + b
  {}

  lemma FeedNothing(m: Mode, s: seq<byte>)
    requires m.Valid()
    ensures s[0..] == s
    ensures Feed(m, s) == Heard(Feed(m, s[0..]).mode, [] + Feed(m, s[0..]).frames)
  {}

  lemma {:induction false} FeedConcat(m: Mode, a: seq<byte>, b: seq<byte>)
    requires m.Valid()
    ensures var h, k := Feed(m, a), Feed(Feed(m, a).mode, b);
            Feed(m, a + b) == Heard(k.mode, h.frames + k.frames)
    decreases |a|
  {
    hide React;
    if a == [] {
      assert a + b == b;
    } else {
      var r := React(m, a[0]);
      var d := if r.dispatched == None then [] else [r.dispatched.value];
      assert (a + b)[0] == a[0] && (a + b)[1..] == a[1..] + b;
      FeedConcat(r.mode, a[1..], b);
      var h := Feed(r.mode, a[1..]);
      var k := Feed(h.mode, b);
      assert (d + h.frames) + k.frames == d + (h.frames + k.frames);
    }
  }

  // ---- streams of bridge frames ----

  predicate BridgeFrame(f: Frame) {
    f.typ <= BRIDGE_FRAME_MAX && |f.payload| <= BRIDGE_FRAME_MAX
  }

  /**
   * The streams the C64 resynchronizes on.  A damaged checksum that looks like a sync is taken for
   * one, so that two bytes of noise after it would be taken for a type and a length.
   */
  ghost predicate C64Stream(segs: seq<Segment>) {
    && (forall seg :: seg in segs ==> Plausible(seg))
    && (forall seg :: seg in segs && !seg.Noise? ==> BridgeFrame(seg.frame))
    && (forall i :: 0 <= i < |segs| - 2 && EndsSyncLike(segs[i]) ==> !(segs[i + 1].Noise? && segs[i + 2].Noise?))
  }

  predicate EndsSyncLike(seg: Segment) {
    seg.Damaged? && seg.wire != [] && SyncLike(seg.wire[|seg.wire| - 1])
  }

  lemma {:induction false} FeedPayload(sub: byte, n: nat, got: seq<byte>, p: seq<byte>)
    requires Pay(sub, n, got).Valid() && |got| + |p| == n
    ensures Feed(Pay(sub, n, got), p) == Heard(Chk(sub, got + Masked(p)), [])
    decreases |p|
  {
    var got' := got + [Low7(p[0])];
    if |p| == 1 {
      assert Masked(p) == [Low7(p[0])];
      assert p[1..] == [];
    } else {
      FeedPayload(sub, n, got', p[1..]);
      assert got + Masked(p) == got' + Masked(p[1..]);
    }
  }

  /** From HUNT, SUB or LEN a frame-shaped string runs through to the checksum. */
  lemma FeedShaped(m: Mode, w: seq<byte>, typ: byte, n: nat)
    requires Hungry(m)
    requires Shaped(w, typ, n) && typ <= BRIDGE_FRAME_MAX && n <= BRIDGE_FRAME_MAX
    ensures Feed(m, w) ==
            if Low7(w[n + 3]) == Xor(Masked(w)[1..n + 3]) then Heard(Hunt, [Frame(typ, Masked(w)[3..n + 3])])
            else Heard(if SyncLike(w[n + 3]) then Sub else Hunt, [])
  {
    var head, p, c := w[..3], w[3..n + 3], w[n + 3];
    FeedParts(m, head, p, c);
    ShapedParts(w, typ, n);
  }

  lemma FeedParts(m: Mode, head: seq<byte>, p: seq<byte>, c: byte)
    requires Hungry(m)
    requires |head| == 3 && SyncLike(head[0]) && Low7(head[1]) <= BRIDGE_FRAME_MAX
    requires Low7(head[2]) == |p| <= BRIDGE_FRAME_MAX
    ensures var typ := Low7(head[1]);
            Feed(m, (head + p) + [c]) ==
            if Low7(c) == Xor([typ, |p|] + Masked(p)) then Heard(Hunt, [Frame(typ, Masked(p))])
            else Heard(if SyncLike(c) then Sub else Hunt, [])
  {
    var typ := Low7(head[1]);
    FeedHead(m, head, typ, |p|);
    FeedRest(typ, |p|, p);
    FeedConcat(m, head, p);
    FeedConcat(m, head + p, [c]);
    FeedCheck(typ, Masked(p), c);
  }

  lemma FeedRest(typ: byte, n: nat, p: seq<byte>)
    requires |p| == n && typ <= BRIDGE_FRAME_MAX && n <= BRIDGE_FRAME_MAX
    ensures Chk(typ, Masked(p)).Valid()
    ensures Feed(if n == 0 then Chk(typ, []) else Pay(typ, n, []), p) == Heard(Chk(typ, Masked(p)), [])
  {
    MaskedSevenBit(p);
    if n > 0 {
      FeedPayload(typ, n, [], p);
      assert [] + Masked(p) == Masked(p);
    } else {
      assert p == [] && Masked(p) == [];
    }
  }

  lemma FeedByte(m: Mode, c: byte)
    requires m.Valid()
    ensures var r := React(m, c);
            Feed(m, [c]) == Heard(r.mode, if r.dispatched == None then [] else [r.dispatched.value])
  {
    var r := React(m, c);
    var d := if r.dispatched == None then [] else [r.dispatched.value];
    assert [c][0] == c && [c][1..] == [];
    assert Feed(r.mode, []) == Heard(r.mode, []);
    assert d + [] == d;
  }

  lemma FeedCheck(typ: byte, got: seq<byte>, c: byte)
    requires Chk(typ, got).Valid()
    ensures Feed(Chk(typ, got), [c]) ==
            if Low7(c) == Xor([typ, |got|] + got) then Heard(Hunt, [Frame(typ, got)])
            else Heard(if SyncLike(c) then Sub else Hunt, [])
  {
    FeedByte(Chk(typ, got), c);
  }

  lemma FeedHead(m: Mode, head: seq<byte>, typ: byte, n: nat)
    requires Hungry(m)
    requires |head| == 3 && SyncLike(head[0]) && Low7(head[1]) == typ && Low7(head[2]) == n
    requires typ <= BRIDGE_FRAME_MAX && n <= BRIDGE_FRAME_MAX
    ensures Feed(m, head) == Heard(if n == 0 then Chk(typ, []) else Pay(typ, n, []), [])
  {
    FeedByte(m, head[0]);
    FeedByte(Sub, head[1]);
    FeedByte(Len(typ), head[2]);
    FeedConcat(m, [head[0]], [head[1]]);
    FeedConcat(m, [head[0]] + [head[1]], [head[2]]);
    assert head == [head[0]] + [head[1]] + [head[2]];
  }

  /**
   * Exactly the intact frames are dispatched, in order, whatever the noise and the damage between
   * them.  Unless some damaged checksum looks like a sync, the parser is left hunting; after a frame
   * it is in any case, unless that very frame ends so.
   */
  lemma {:induction false} ParserRecovers(m: Mode, segs: seq<Segment>)
    requires C64Stream(segs) && Hungry(m)
    requires m.Sub? && |segs| > 1 ==> !(segs[0].Noise? && segs[1].Noise?)
    requires m.Len? && |segs| > 0 ==> !segs[0].Noise?
    ensures Feed(m, Flat(segs)).frames == IntactFrames(segs)
    ensures m == Hunt && (forall seg :: seg in segs ==> !EndsSyncLike(seg)) ==> Feed(m, Flat(segs)).mode == Hunt
    ensures segs != [] && !segs[|segs| - 1].Noise? ==>
              Feed(m, Flat(segs)).mode == if EndsSyncLike(segs[|segs| - 1]) then Sub else Hunt
    decreases |segs|
  {
    hide Plausible, BridgeFrame, React, EndsSyncLike, Feed, Bytes;
    if segs == [] {
      NothingFed(m);
    } else {
      var seg, tail := segs[0], segs[1..];
      HeadSegment(segs);
      TailStream(segs);
      FeedOne(m, seg);
      FeedConcat(m, Bytes(seg), Flat(tail));
      var m' := Feed(m, Bytes(seg)).mode;
      ParserRecovers(m', tail);
      assert forall x :: x in tail ==> x in segs;
      if tail == [] {
        NothingFed(m');
      }
    }
  }

  lemma NothingFed(m: Mode)
    requires m.Valid()
    ensures Feed(m, []) == Heard(m, [])
  {}

  lemma HeadSegment(segs: seq<Segment>)
    requires C64Stream(segs) && segs != []
    ensures segs[0] in segs && Plausible(segs[0]) && (!segs[0].Noise? ==> BridgeFrame(segs[0].frame))
  {
    assert segs[0] in segs;
  }

  lemma TailStream(segs: seq<Segment>)
    requires C64Stream(segs) && segs != []
    ensures C64Stream(segs[1..])
    ensures |segs| > 2 && EndsSyncLike(segs[0]) ==> !(segs[1].Noise? && segs[2].Noise?)
  {
    hide Plausible, BridgeFrame, EndsSyncLike;
    forall i | 0 <= i < |segs[1..]| - 2 && EndsSyncLike(segs[1..][i])
      ensures !(segs[1..][i + 1].Noise? && segs[1..][i + 2].Noise?)
    {
      assert segs[1..][i] == segs[i + 1];
    }
  }

  /** Waiting for a frame: a sync-like byte leads to SUB. */
  predicate Hungry(m: Mode) {
    m.Hunt? || m.Sub? || (m.Len? && m.Valid())
  }

  lemma FeedOne(m: Mode, seg: Segment)
    requires Plausible(seg) && (!seg.Noise? ==> BridgeFrame(seg.frame))
    requires Hungry(m) && (seg.Noise? ==> !m.Len?)
    ensures Feed(m, Bytes(seg)) ==
            if seg.Noise? then Heard(if m.Sub? then Len(Low7(seg.b)) else Hunt, [])
            else Heard(if EndsSyncLike(seg) then Sub else Hunt, if seg.Intact? then [seg.frame] else [])
  {
    hide Xor, Feed;
    match seg
    case Noise(b) =>
      FeedByte(m, b);
    case Intact(f, w) =>
      IntactShape(w, f);
      FeedShaped(m, w, f.typ, |f.payload|);
    case Damaged(f, w) =>
      DamagedShape(w, f);
      FeedShaped(m, w, f.typ, |f.payload|);
  }

  /** Why two bytes of noise are too many: the second is taken for a length, and swallows the next frame if it is that long. */
  lemma TwoNoiseBytesSwallowAFrame(f: Frame, w: seq<byte>, a: byte, b: byte, g: Frame, v: seq<byte>)
    requires Damages(w, f) && BridgeFrame(f) && SyncLike(w[|w| - 1]) && !SyncLike(a) && !SyncLike(b)
    requires Carries(v, g) && BridgeFrame(g)
    requires |v| < Low7(b)
    ensures Feed(Hunt, w + ([a, b] + v)).frames == []
  {
    hide Feed, React, Damages, Carries, Xor;
    DamagedShape(w, f);
    FeedOne(Hunt, Damaged(f, w));
    assert Feed(Hunt, w) == Heard(Sub, []);
    FeedConcat(Hunt, w, [a, b] + v);
    FeedByte(Sub, a);
    FeedByte(Len(Low7(a)), b);
    FeedConcat(Sub, [a], [b]);
    assert [a] + [b] == [a, b];
    NoiseReads(a, b);
    assert Feed(Sub, [a, b]) == Heard(Pay(Low7(a), Low7(b), []), []);
    FeedConcat(Sub, [a, b], v);
    Swallows(Pay(Low7(a), Low7(b), []), v);
  }

  lemma NoiseReads(a: byte, b: byte)
    requires !SyncLike(a) && !SyncLike(b) && Low7(b) > 0
    ensures React(Sub, a) == Reaction(Len(Low7(a)), None)
    ensures React(Len(Low7(a)), b) == Reaction(Pay(Low7(a), Low7(b), []), None)
  {}

  lemma {:induction false} Swallows(m: Mode, s: seq<byte>)
    requires m.Pay? && m.Valid() && |m.got| + |s| < m.n
    ensures Feed(m, s).frames == []
    decreases |s|
  {
    if s != [] {
      Swallows(React(m, s[0]).mode, s[1..]);
    }
  }

  /** Both receivers agree on every stream both can follow. */
  lemma ReceiversAgree(segs: seq<Segment>)
    requires C64Stream(segs) && GoStreams.GoStream(segs)
    ensures Feed(Hunt, Flat(segs)).frames == GoCodec.DecodeAll(Flat(segs))
  {
    ParserRecovers(Hunt, segs);
    GoStreams.DecodeAllRecovers(segs);
  }

  // ---- one damaged byte among encoded frames ----

  function EncodedAll(fs: seq<Frame>): seq<byte> {
    if fs == [] then [] else Encoded(fs[0]) + EncodedAll(fs[1..])
  }

  function AsSegments(fs: seq<Frame>): (segs: seq<Segment>)
    ensures |segs| == |fs|
    ensures forall i :: 0 <= i < |fs| ==> segs[i] == Intact(fs[i], Encoded(fs[i]))
  {
    if fs == [] then [] else [Intact(fs[0], Encoded(fs[0]))] + AsSegments(fs[1..])
  }

  lemma {:induction false} EncodedAreSegments(fs: seq<Frame>, tail: seq<Segment>)
    ensures Flat(AsSegments(fs) + tail) == EncodedAll(fs) + Flat(tail)
    ensures IntactFrames(AsSegments(fs) + tail) == fs + IntactFrames(tail)
  {
    hide Encoded, Flat, IntactFrames;
    if fs == [] {
      assert AsSegments(fs) + tail == tail;
      assert EncodedAll(fs) + Flat(tail) == Flat(tail) && fs + IntactFrames(tail) == IntactFrames(tail);
    } else {
      var f, more := fs[0], fs[1..];
      var seg := Intact(f, Encoded(f));
      EncodedAreSegments(more, tail);
      Assoc([seg], AsSegments(more), tail);
      OneMoreSegment(seg, AsSegments(more) + tail);
      Assoc(Encoded(f), EncodedAll(more), Flat(tail));
      assert fs == [f] + more;
      Assoc([f], more, IntactFrames(tail));
    }
  }

  lemma Assoc<T>(a: seq<T>, b: seq<T>, c: seq<T>)
    ensures (a + b) + c == a + (b + c)
  {}

  lemma OneMoreSegment(seg: Segment, more: seq<Segment>)
    ensures Flat([seg] + more) == Bytes(seg) + Flat(more)
    ensures IntactFrames([seg] + more) == (if seg.Intact? then [seg.frame] else []) + IntactFrames(more)
  {
    assert ([seg] + more)[0] == seg && ([seg] + more)[1..] == more;
  }

  lemma NoSegments()
    ensures Flat([]) == [] && IntactFrames([]) == []
  {}

  /** Encoded frames with a damaged one among them. */
  function WithDamage(before: seq<Frame>, f: Frame, w: seq<byte>, after: seq<Frame>): seq<Segment> {
    AsSegments(before) + ([Damaged(f, w)] + AsSegments(after))
  }

  lemma DamageRead(before: seq<Frame>, f: Frame, w: seq<byte>, after: seq<Frame>)
    ensures Flat(WithDamage(before, f, w, after)) == EncodedAll(before) + (w + EncodedAll(after))
    ensures IntactFrames(WithDamage(before, f, w, after)) == before + after
  {
    hide Encoded, Flat, IntactFrames, EncodedAll, AsSegments;
    var tail := AsSegments(after);
    EncodedAreSegments(after, []);
    NoSegments();
    assert tail + [] == tail && EncodedAll(after) + [] == EncodedAll(after) && after + [] == after;
    OneMoreSegment(Damaged(f, w), tail);
    EncodedAreSegments(before, [Damaged(f, w)] + tail);
    assert [] + after == after;
  }

  lemma DamageAt(before: seq<Frame>, f: Frame, w: seq<byte>, after: seq<Frame>, i: nat)
    requires Damages(w, f) && i < |before| + 1 + |after|
    requires forall g :: g in before + after ==> Clean(g)
    ensures var segs, all := WithDamage(before, f, w, after), before + [f] + after;
            && |segs| == |all| && !segs[i].Noise? && segs[i].frame == all[i] && Plausible(segs[i])
            && (segs[i].Damaged? <==> i == |before|)
            && (i != |before| ==> GoStreams.StartsWithSync(segs[i]))
  {
    hide Damages, Carries, Encoded;
    if i != |before| {
      var g := if i < |before| then before[i] else after[i - |before| - 1];
      assert g in before + after;
      EncodedCarries(g);
      StartsEncoded(g);
    }
  }

  lemma StartsEncoded(g: Frame)
    ensures Encoded(g) != [] && Encoded(g)[0] == SYNC
  {
    hide Xor;
  }

  lemma NotDamagedTwice(segs: seq<Segment>, i: nat, k: nat)
    requires i < |segs| - 1 && GoStreams.LooksLikeSync(segs[i])
    requires forall j :: 0 <= j < |segs| ==> (segs[j].Damaged? <==> j == k)
    ensures i == k
  {}

  /**
   * Frames encoded back to back, with one payload or checksum byte of one of them changed in its
   * low seven bits: the bridge decodes exactly the others, and so does the C64 if they fit it.
   */
  lemma OneDamagedByte(before: seq<Frame>, f: Frame, w: seq<byte>, after: seq<Frame>)
    requires Damages(w, f)
    requires forall g :: g in before + [f] + after ==> Clean(g) && KnownType(g.typ)
    ensures var wire := EncodedAll(before) + (w + EncodedAll(after));
            && GoCodec.DecodeAll(wire) == before + after
            && ((forall g :: g in before + [f] + after ==> BridgeFrame(g)) ==> Feed(Hunt, wire).frames == before + after)
  {
    hide Damages, KnownType, Feed, WithDamage, BridgeFrame, Plausible, GoStreams.StartsWithSync, GoStreams.StrayType, GoStreams.LooksLikeSync, GoCodec.DecodeAll;
    var segs, all := WithDamage(before, f, w, after), before + [f] + after;
    forall i | 0 <= i < |segs|
      ensures Plausible(segs[i]) && !segs[i].Noise? && segs[i].frame in all
      ensures segs[i].Damaged? <==> i == |before|
      ensures i != |before| ==> GoStreams.StartsWithSync(segs[i])
    {
      DamageAt(before, f, w, after, 0);
      DamageAt(before, f, w, after, i);
    }
    DamageRead(before, f, w, after);
    forall i | 0 <= i < |segs| - 1 && GoStreams.LooksLikeSync(segs[i]) ensures GoStreams.SafeAfter(segs, i) {
      NotDamagedTwice(segs, i, |before|);
    }
    GoStreams.DecodeAllRecovers(segs);
    if forall g :: g in all ==> BridgeFrame(g) {
      ParserRecovers(Hunt, segs);
    }
  }

  // ---- forced resynchronization ----

  predicate AllSyncLike(s: seq<byte>) {
    forall i :: 0 <= i < |s| ==> SyncLike(s[i])
  }

  /** How many more bytes the parser can swallow before it must look for a sync again. */
  function Appetite(m: Mode): nat
    requires m.Valid()
  {
    match m
    case Sub => 0
    case Hunt => 1
    case Lost => 2
    case Len(_) => 1
    case Chk(_, _) => 2
    case Pay(_, n, got) => n - |got| + 2
  }

  lemma {:induction false} SyncsResynchronize(m: Mode, s: seq<byte>)
    requires m.Valid() && AllSyncLike(s) && |s| >= Appetite(m)
    ensures Feed(m, s).mode == Sub
    ensures |Feed(m, s).frames| <= if m.Hunt? || m.Sub? || m.Len? then 0 else 1
    decreases |s|
  {
    if s != [] {
      SyncsResynchronize(React(m, s[0]).mode, s[1..]);
    }
  }

  /** 125 sync-like bytes rescue the parser from any state, at the cost of at most one false frame. */
  lemma AnyStateRecovers(m: Mode, syncs: seq<byte>, segs: seq<Segment>)
    requires m.Valid() && AllSyncLike(syncs) && |syncs| >= 125
    requires C64Stream(segs) && segs != [] && !segs[0].Noise?
    ensures exists spurious: seq<Frame> ::
              |spurious| <= 1 && Feed(m, syncs + Flat(segs)).frames == spurious + IntactFrames(segs)
  {
    SyncsResynchronize(m, syncs);
    FeedConcat(m, syncs, Flat(segs));
    ParserRecovers(Sub, segs);
    var spurious := Feed(m, syncs).frames;
    assert Feed(m, syncs + Flat(segs)).frames == spurious + IntactFrames(segs);
  }

  /** No smaller number will do: here 124 sync bytes spell a whole frame and leave the parser hunting. */
  lemma Needs125()
    ensures var m, syncs := Pay(0x7B, 123, []), seq(124, i => SYNC);
            && m.Valid() && Feed(Hunt, [SYNC, 0x7B, 0x7B]).mode == m
            && AllSyncLike(syncs) && Feed(m, syncs).mode == Hunt
  {
    FeedHead(Hunt, [SYNC, 0x7B, 0x7B], 0x7B, 123);
    var p, syncs := seq(123, i => SYNC), seq(124, i => SYNC);
    var got := Masked(p);
    assert syncs == p + [SYNC];
    SyncPayloadSums(0x7B, Low7(SYNC), got);
    FeedRest(0x7B, 123, p);
    FeedConcat(Pay(0x7B, 123, []), p, [SYNC]);
    FeedCheck(0x7B, got, SYNC);
  }

  lemma SyncPayloadSums(a: byte, b: byte, got: seq<byte>)
    requires |got| % 2 == 1 && forall i :: 0 <= i < |got| ==> got[i] == b
    ensures Xor([a, a] + got) == b
  {
    assert got == seq(|got|, i => b);
    XorRepeat(b, |got|);
    XorConcat([a, a], got);
    XorPair(a, a);
    Xor2Laws(a, 0, 0);
    Xor2Laws(b, 0, 0);
  }

  lemma {:induction false} XorRepeat(b: byte, n: nat)
    ensures Xor(seq(n, i => b)) == if n % 2 == 0 then 0 else b
  {
    if n > 0 {
      XorRepeat(b, n - 1);
      assert seq(n, i => b) == seq(n - 1, i => b) + [b];
      XorSnoc(seq(n - 1, i => b), b);
      Xor2Laws(b, 0, 0);
      Xor2Laws(0, b, 0);
    }
  }
}
