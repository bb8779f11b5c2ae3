/** The layers put together: which frames the bridge takes, whatever the C64 repeats and the line loses. */
module EndToEnd {
  import opened Wire
  import opened Frames
  import opened TransportIds
  import opened Streams
  import opened GoCodec
  import opened Inbox
  import Relay
  import GoStreams
  import C64Streams
  import C64Parser
  import opened LineRuns
  import SenderRuns
  import Outbound
  import ChatText

  // ---- one frame ----

  /** Whatever bit 7 of its bytes became, a frame with its id in front is decoded, and stripping gives id and payload back. */
  lemma InjectedFrameDecodes(id: byte, f: Frame, w: seq<byte>, rest: seq<byte>)
    requires Carries(w, WithID(id, f)) && KnownType(f.typ)
    ensures Hunt(w + rest) == Got(WithID(id, f), rest)
    ensures StripID(WithID(id, f).payload) == Stripped(id, f.payload, true)
  {
    hide Xor, KnownType;
    var g := WithID(id, f);
    IntactShape(w, g);
    GoStreams.HuntShaped(w, g.typ, |g.payload|, rest);
    assert ([id] + f.payload)[1..] == f.payload;
  }

  /** Every frame the bridge builds is one the C64 parser dispatches unchanged, and the Go decoder agrees. */
  lemma BridgeFramesFit(f: Frame, n: nat, w: seq<byte>)
    requires ChatText.FitsLine(f) && Carries(w, WithID(IdOf(n), f))
    ensures C64Streams.Feed(C64Parser.Hunt, w) == C64Streams.Heard(C64Parser.Hunt, [WithID(IdOf(n), f)])
    ensures DecodeAll(w) == [WithID(IdOf(n), f)]
  {
    hide Xor, KnownType, DecodeAll;
    var g := WithID(IdOf(n), f);
    C64Streams.FeedOne(C64Parser.Hunt, Intact(g, w));
    InjectedFrameDecodes(IdOf(n), f, w, []);
    OneFrame(w, g);
  }

  lemma OneFrame(w: seq<byte>, g: Frame)
    requires Hunt(w + []) == Got(g, [])
    ensures DecodeAll(w) == [g]
  {
    assert w + [] == w;
    assert DecodeAll([]) == [];
  }

  // ---- acknowledgments ----

  /** What the C64 puts on the line for a frame of the bridge ends the bridge's wait for that frame, and for no other. */
  lemma AckReachesBridge(acked: byte, id: byte)
    requires acked < 0x80
    ensures DecodeAll(Outbound.AckImage(acked)) == [Frame(ACK, [acked])]
    ensures Relay.IsAckFor(Frame(ACK, [acked]), id) <==> acked == id
  {
    hide Xor, KnownType, DecodeAll, Outbound.AckImage;
    var w, g := Outbound.AckImage(acked), Frame(ACK, [acked]);
    AckCarries(acked);
    IntactShape(w, g);
    assert KnownType(ACK) by { AckIsKnown(); }
    GoStreams.HuntShaped(w, g.typ, |g.payload|, []);
    OneFrame(w, g);
  }

  lemma AckIsKnown()
    ensures KnownType(ACK) && KnownType(ACK_TO_C64)
  {}

  /** What the bridge writes for a frame of the C64 is dispatched there, and ends the wait for that frame and no other. */
  lemma AckReachesC64(acked: byte, pending: byte, w: seq<byte>)
    requires acked < 0x80 && Carries(w, Relay.AckFrame(acked))
    ensures C64Streams.Feed(C64Parser.Hunt, w) == C64Streams.Heard(C64Parser.Hunt, [Relay.AckFrame(acked)])
    ensures GuardedAck(Relay.AckFrame(acked).payload, pending) <==> acked == pending
  {
    hide Xor, Xor2;
    var f := Relay.AckFrame(acked);
    C64Streams.FeedOne(C64Parser.Hunt, Intact(f, w));
  }

  // ---- many frames over a lossy line ----

  /** The newest frame of which a copy arrived. */
  function LastArrived(arrived: seq<nat>): int {
    if arrived == [] then -1
    else if arrived[|arrived| - 1] > 0 then |arrived| - 1
    else LastArrived(arrived[..|arrived| - 1])
  }

  /** Never more than 62 frames in a row lost with all their copies before another one arrives. */
  predicate NoLargeHole(arrived: seq<nat>) {
    arrived != [] ==>
      var init := arrived[..|arrived| - 1];
      && NoLargeHole(init)
      && (arrived[|arrived| - 1] > 0 && LastArrived(init) >= 0 ==> |init| - LastArrived(init) <= 63)
  }

  /** The frames of which at least one copy arrived. */
  function Present(built: seq<Frame>, arrived: seq<nat>): seq<Frame>
    requires |built| == |arrived|
  {
    var n := |built|;
    if n == 0 then []
    else Present(built[..n - 1], arrived[..n - 1]) + if arrived[n - 1] > 0 then [built[n - 1]] else []
  }

  function NewestArrived(built: seq<Frame>, arrived: seq<nat>): Newest
    requires |built| == |arrived|
  {
    var l := LastArrived(arrived);
    if 0 <= l < |built| then Newest(IdOf(l), built[l].typ) else SILENT
  }

  lemma {:induction false} LastArrivedBelow(arrived: seq<nat>)
    ensures -1 <= LastArrived(arrived) < |arrived|
  {
    if arrived != [] { LastArrivedBelow(arrived[..|arrived| - 1]); }
  }

  /** However often each frame arrives, the bridge takes every frame that arrives once, in the order built. */
  lemma {:induction false} FreshOnce(built: seq<Frame>, arrived: seq<nat>)
    requires |built| == |arrived| && NoLargeHole(arrived)
    requires forall i :: 0 <= i < |built| ==> ReliableC64(built[i].typ)
    ensures FreshFrames(Heard(built, arrived)) == Present(built, arrived)
    ensures After(Heard(built, arrived)) == NewestArrived(built, arrived)
  {
    hide IdOf, ReliableC64;
    var n := |built|;
    if n > 0 {
      var b, a := built[..n - 1], arrived[..n - 1];
      FreshOnce(b, a);
      LastArrivedBelow(a);
      var heard := Heard(b, a);
      FreshCopies(heard, NewestArrived(b, a), LastArrived(a), n - 1, built[n - 1], arrived[n - 1]);
    }
  }

  /** k copies of one frame count once, if they count at all. */
  lemma {:induction false} FreshCopies(heard: seq<Frame>, b: Newest, last: int, n: nat, f: Frame, k: nat)
    requires After(heard) == b && ReliableC64(f.typ)
    requires b == SILENT || (0 <= last < n && b.id == IdOf(last))
    requires k > 0 && b != SILENT ==> n - last <= 63
    ensures var more := heard + Repeat(WithID(IdOf(n), f), k);
            && FreshFrames(more) == FreshFrames(heard) + (if k > 0 then [f] else [])
            && After(more) == if k > 0 then Newest(IdOf(n), f.typ) else b
  {
    hide IdOf, ReliableC64, FreshFrames, After, Accept;
    var g := WithID(IdOf(n), f);
    if k == 0 {
      assert heard + Repeat(g, 0) == heard;
    } else {
      var before := heard + Repeat(g, k - 1);
      assert heard + Repeat(g, k) == before + [g];
      FreshCopies(heard, b, last, n, f, k - 1);
      Relay.HeardMore(before, g);
      if k == 1 {
        AcceptNext(b, last, n, f);
      } else {
        AcceptAgain(n, f);
      }
    }
  }

  lemma AcceptNext(b: Newest, last: int, n: nat, f: Frame)
    requires ReliableC64(f.typ)
    requires b == SILENT || (0 <= last < n && n - last <= 63 && b.id == IdOf(last))
    ensures Accept(b, WithID(IdOf(n), f)) == Verdict(Newest(IdOf(n), f.typ), Some(IdOf(n)), f, false)
  {
    hide ReliableC64;
    assert ([IdOf(n)] + f.payload)[1..] == f.payload;
    if b != SILENT {
      WindowDecides(n, last);
    }
  }

  lemma AcceptAgain(n: nat, f: Frame)
    requires ReliableC64(f.typ)
    ensures Accept(Newest(IdOf(n), f.typ), WithID(IdOf(n), f)) == Verdict(Newest(IdOf(n), f.typ), Some(IdOf(n)), f, true)
  {
    hide ReliableC64, IdOf;
    assert ([IdOf(n)] + f.payload)[1..] == f.payload;
  }

  predicate AllReliable(built: seq<Frame>) {
    forall i :: 0 <= i < |built| ==> ReliableC64(built[i].typ)
  }

  lemma {:induction false} AllPresent(built: seq<Frame>, arrived: seq<nat>)
    requires |built| == |arrived| && forall i :: 0 <= i < |arrived| ==> arrived[i] > 0
    ensures Present(built, arrived) == built && NoLargeHole(arrived) && LastArrived(arrived) == |arrived| - 1
  {
    if built != [] {
      AllPresent(built[..|built| - 1], arrived[..|arrived| - 1]);
    }
  }

  // ---- acknowledgments count for nothing here ----

  function NoAcks(fs: seq<Frame>): seq<Frame> {
    if fs == [] then [] else
    NoAcks(fs[..|fs| - 1]) + if fs[|fs| - 1].typ == ACK then [] else [fs[|fs| - 1]]
  }

  /** The frames taken do not depend on the acknowledgments between them. */
  lemma {:induction false} FreshIgnoresAcks(fs: seq<Frame>)
    ensures FreshFrames(NoAcks(fs)) == FreshFrames(fs) && After(NoAcks(fs)) == After(fs)
  {
    hide FreshFrames, After, Accept, ReliableC64;
    if fs == [] {
      assert NoAcks(fs) == fs;
    } else {
      var init, f := fs[..|fs| - 1], fs[|fs| - 1];
      FreshIgnoresAcks(init);
      assert fs == init + [f];
      Relay.HeardMore(init, f);
      if f.typ == ACK {
        Relay.AckIsOutside();
        AcceptOther(After(init), f);
        assert NoAcks(fs) == NoAcks(init);
      } else {
        Relay.HeardMore(NoAcks(init), f);
      }
    }
  }

  lemma {:induction false} OwnAreNotAcks(items: seq<Item>)
    requires AllHonest(items)
    ensures NoAcks(WholeFrames(items)) == OwnFrames(items)
  {
    hide Carries, KnownType;
    if items != [] {
      var init, x := items[..|items| - 1], items[|items| - 1];
      OwnAreNotAcks(init);
      assert Honest(x);
      var w := WholeFrames(init);
      if x.Whole? {
        assert (w + [x.frame])[..|w|] == w;
      } else {
        assert w + [] == w;
      }
    }
  }

  // ---- every run of the C64 ----

  /** Whether the newest frame has been sent in full at least once. */
  predicate NewestSent(l: SenderRuns.Log) {
    l.copies == [] || l.tx.Drained() || l.copies[|l.copies| - 1] > 1
  }

  lemma BuiltAreReliable(t: Line)
    requires LineInv(t)
    ensures AllReliable(DulledAll(t.log.built))
  {
    hide LineRuns.Cut, Counted, SenderRuns.Ended, SenderRuns.Image;
  }

  /**
   * Every run in which acknowledgments keep out of the transmissions: whatever was retransmitted or
   * given up, the bridge takes each frame exactly once and in order, the newest as soon as it has
   * been sent in full.
   */
  lemma SentIsTaken(events: seq<Event>)
    requires AllAdmissible(events) && Tidy(events)
    ensures var t := Run(events);
            FreshFrames(DecodeAll(t.wire)) ==
            DulledAll(if NewestSent(t.log) then t.log.built else t.log.built[..|t.log.built| - 1])
  {
    hide Heard, FreshFrames, DecodeAll, Run, Tidy, WholeFrames, OwnFrames, SenderRuns.Inv, SenderRuns.Ended, LineRuns.Cut, NoAcks;
    var t := Run(events);
    TidyHears(events);
    OwnAreNotAcks(t.items) by { ItemsAreHonest(t); }
    FreshIgnoresAcks(WholeFrames(t.items));
    BuiltAreReliable(t);
    WholeShape(t);
    TakenInOrder(DulledAll(t.log.built), t.whole);
    if t.log.built != [] { DulledInit(t.log.built); }
  }

  lemma ItemsAreHonest(t: Line)
    requires LineInv(t)
    ensures AllHonest(t.items)
  {}

  lemma WholeShape(t: Line)
    requires LineInv(t)
    requires forall i :: 0 <= i < |t.log.built| ==>
               t.whole[i] == t.log.copies[i] - if i == |t.log.built| - 1 && !t.log.tx.Drained() then 1 else 0
    ensures |t.whole| == |t.log.built|
    ensures (forall i :: 0 <= i < |t.whole| - 1 ==> t.whole[i] > 0)
    ensures t.whole != [] ==> (t.whole[|t.whole| - 1] > 0 <==> NewestSent(t.log))
  {
    hide LineRuns.Cut, SenderRuns.Ended, SenderRuns.Image, Heard, OwnFrames;
  }

  lemma DulledInit(built: seq<Frame>)
    requires built != []
    ensures DulledAll(built)[..|built| - 1] == DulledAll(built[..|built| - 1])
  {
    hide Dulled;
  }

  /** Frames that all arrive, the newest one perhaps excepted, are taken once and in order. */
  lemma TakenInOrder(built: seq<Frame>, c: seq<nat>)
    requires |built| == |c| && AllReliable(built) && forall i :: 0 <= i < |c| - 1 ==> c[i] > 0
    ensures FreshFrames(Heard(built, c)) == if c != [] && c[|c| - 1] == 0 then built[..|built| - 1] else built
  {
    hide Heard, FreshFrames, Present, NoLargeHole;
    var n := |built|;
    if n > 0 && c[n - 1] == 0 {
      AllPresent(built[..n - 1], c[..n - 1]);
      LastMissing(built, c);
    } else {
      AllPresent(built, c);
    }
    FreshOnce(built, c);
  }

  lemma LastMissing(built: seq<Frame>, arrived: seq<nat>)
    requires |built| == |arrived| > 0 && arrived[|arrived| - 1] == 0
    ensures var n := |built|;
            && Present(built, arrived) == Present(built[..n - 1], arrived[..n - 1])
            && (NoLargeHole(arrived[..n - 1]) ==> NoLargeHole(arrived))
  {}

  /**
   * Every run, with acknowledgments anywhere: transmissions torn by one count as lost, if the
   * decoder gets past their bytes, and the bridge takes exactly the frames of which a transmission
   * went out whole, as long as no more than 62 in a row did not.
   */
  lemma WholeIsTaken(events: seq<Event>)
    requires AllAdmissible(events)
    requires TornSkippable(Run(events).items) && !Run(events).broken && NoLargeHole(Run(events).whole)
    ensures var t := Run(events);
            FreshFrames(DecodeAll(t.wire)) == Present(DulledAll(t.log.built), t.whole)
  {
    hide Heard, FreshFrames, DecodeAll, Run, WholeFrames, OwnFrames, SenderRuns.Inv, SenderRuns.Ended, LineRuns.Cut, NoAcks, NoLargeHole, Present, TornSkippable;
    var t := Run(events);
    BridgeHears(t);
    OwnAreNotAcks(t.items) by { ItemsAreHonest(t); }
    FreshIgnoresAcks(WholeFrames(t.items));
    BuiltAreReliable(t);
    FreshOnce(DulledAll(t.log.built), t.whole);
  }

  // ---- the same over a line that loses and damages ----

  /**
   * What arrives, frame by frame: noise, acknowledgments, and copies of the frame, intact or
   * damaged.  No more copies arrive intact than were transmitted whole.
   */
  ghost predicate OnLine(t: Line, line: seq<seq<Segment>>) {
    && |line| == |t.log.built| == |t.whole|
    && (forall i :: 0 <= i < |line| ==>
          CopiesOf(line[i], WithID(IdOf(i), Dulled(t.log.built[i]))) && IntactCopies(line[i]) <= t.whole[i])
  }

  ghost predicate CopiesOf(segs: seq<Segment>, g: Frame) {
    forall j :: 0 <= j < |segs| && !segs[j].Noise? ==> segs[j].frame == g || segs[j].frame.typ == ACK
  }

  function Together(line: seq<seq<Segment>>): seq<Segment> {
    if line == [] then [] else Together(line[..|line| - 1]) + line[|line| - 1]
  }

  function IntactCopies(segs: seq<Segment>): nat {
    if segs == [] then 0
    else (if segs[0].Intact? && segs[0].frame.typ != ACK then 1 else 0) + IntactCopies(segs[1..])
  }

  /** How many copies of each frame survived. */
  function Survivors(line: seq<seq<Segment>>): (c: seq<nat>)
    ensures |c| == |line|
  {
    if line == [] then [] else Survivors(line[..|line| - 1]) + [IntactCopies(line[|line| - 1])]
  }

  lemma {:induction false} RepeatFront(f: Frame, n: nat)
    ensures [f] + Repeat(f, n) == Repeat(f, n + 1)
  {
    if n > 0 { RepeatFront(f, n - 1); }
  }

  lemma {:induction false} NoAcksConcat(a: seq<Frame>, b: seq<Frame>)
    ensures NoAcks(a + b) == NoAcks(a) + NoAcks(b)
  {
    if b == [] {
      assert a + b == a;
    } else {
      var init := b[..|b| - 1];
      assert (a + b)[..|a + b| - 1] == a + init;
      NoAcksConcat(a, init);
    }
  }

  lemma NoAcksOne(f: Frame)
    ensures NoAcks([f]) == if f.typ == ACK then [] else [f]
  {
    assert [f][..0] == [];
  }

  lemma {:induction false} CopiesOfOne(segs: seq<Segment>, g: Frame)
    requires CopiesOf(segs, g) && g.typ != ACK
    ensures NoAcks(IntactFrames(segs)) == Repeat(g, IntactCopies(segs))
  {
    hide NoAcks;
    if segs == [] {
      NoAcksOfNothing();
    } else {
      var rest := IntactFrames(segs[1..]);
      CopiesOfOne(segs[1..], g);
      if segs[0].Intact? {
        NoAcksConcat([segs[0].frame], rest);
        NoAcksOne(segs[0].frame);
        RepeatFront(g, IntactCopies(segs[1..]));
      } else {
        assert [] + rest == rest;
      }
    }
  }

  lemma NoAcksOfNothing()
    ensures NoAcks([]) == []
  {}

  lemma {:induction false} IntactConcat(a: seq<Segment>, b: seq<Segment>)
    ensures IntactFrames(a + b) == IntactFrames(a) + IntactFrames(b)
  {
    hide IntactFrames;
    if a == [] {
      assert a + b == b;
      C64Streams.NoSegments();
      assert [] + IntactFrames(b) == IntactFrames(b);
    } else {
      var seg, more := a[0], a[1..];
      IntactConcat(more, b);
      assert a == [seg] + more;
      C64Streams.Assoc([seg], more, b);
      C64Streams.OneMoreSegment(seg, more);
      C64Streams.OneMoreSegment(seg, more + b);
      C64Streams.Assoc(if seg.Intact? then [seg.frame] else [], IntactFrames(more), IntactFrames(b));
    }
  }

  lemma {:induction false} LineHeard(built: seq<Frame>, line: seq<seq<Segment>>)
    requires |line| == |built| && AllReliable(built)
    requires forall i :: 0 <= i < |line| ==> CopiesOf(line[i], WithID(IdOf(i), built[i]))
    ensures NoAcks(IntactFrames(Together(line))) == Heard(built, Survivors(line))
  {
    hide IdOf, NoAcks, CopiesOf, ReliableC64;
    var n := |line|;
    if n == 0 {
      NoAcksOfNothing();
    } else {
      var b, rest := built[..n - 1], line[..n - 1];
      forall i | 0 <= i < n - 1 ensures CopiesOf(rest[i], WithID(IdOf(i), b[i])) {
        assert rest[i] == line[i] && b[i] == built[i];
      }
      LineHeard(b, rest);
      IntactConcat(Together(rest), line[n - 1]);
      NoAcksConcat(IntactFrames(Together(rest)), IntactFrames(line[n - 1]));
      ReliableIsKnown(built[n - 1].typ);
      CopiesOfOne(line[n - 1], WithID(IdOf(n - 1), built[n - 1]));
    }
  }

  /**
   * Every run of the C64 over every line that damages and loses copies, but never all copies of more
   * than 62 frames in a row: the bridge takes exactly the frames of which a copy survived, once each
   * and in order.
   */
  lemma LossyLine(events: seq<Event>, line: seq<seq<Segment>>)
    requires AllAdmissible(events) && OnLine(Run(events), line)
    requires GoStreams.GoStream(Together(line)) && NoLargeHole(Survivors(line))
    ensures FreshFrames(DecodeAll(Flat(Together(line)))) == Present(DulledAll(Run(events).log.built), Survivors(line))
  {
    hide Run, LineInv, Heard, Present, NoLargeHole, FreshFrames, DecodeAll, GoStreams.GoStream, Together, Survivors, CopiesOf, NoAcks, Dulled;
    var t := Run(events);
    BuiltAreReliable(t);
    LineHeard(DulledAll(t.log.built), line);
    GoStreams.DecodeAllRecovers(Together(line));
    FreshIgnoresAcks(IntactFrames(Together(line)));
    FreshOnce(DulledAll(t.log.built), Survivors(line));
  }
}
