/** The bridge's transport state: sending with ids, waiting for acknowledgments, and queueing what arrives meanwhile. */
module Relay {
  import opened Wire
  import opened Frames
  import opened TransportIds
  import opened Inbox
  import ReliableLink

  datatype QueuedFrame = QueuedFrame(frame: Frame, accepted: bool)

  /** The requests whose delivery a reply can confirm. */
  datatype Request = ExecRequest | ScreenshotRequest | StatusRequest | StopRequest | OtherRequest

  predicate SemanticConfirmsDelivery(name: Request, typ: byte) {
    match name
    case ExecRequest => typ in {STATUS, RESULT, ERROR}
    case ScreenshotRequest => typ in {RESULT, ERROR}
    case StatusRequest => typ in {STATUS, ERROR}
    case StopRequest => typ in {STATUS, ERROR}
    case OtherRequest => false
  }

  /** A repeated STATUS still answers a status request. */
  predicate Confirms(name: Request, typ: byte, duplicate: bool) {
    if duplicate then name.StatusRequest? && typ == STATUS else SemanticConfirmsDelivery(name, typ)
  }

  /** The i-th frame of a wait is a reply that confirms the request. */
  predicate ConfirmsAt(name: Request, before: seq<Frame>, link: seq<Frame>, i: nat)
    requires i < |link|
  {
    ReliableC64(link[i].typ) && Confirms(name, link[i].typ, LastVerdict(before + link[..i + 1]).duplicate)
  }

  /** The i-th frame of a wait is a fresh STATUS or ERROR. */
  predicate AnswersAt(before: seq<Frame>, link: seq<Frame>, i: nat)
    requires i < |link|
  {
    ReliableC64(link[i].typ) && link[i].typ in {STATUS, ERROR} && !LastVerdict(before + link[..i + 1]).duplicate
  }

  predicate RequiresSemanticConfirmation(name: Request) {
    !name.OtherRequest?
  }

  function Copies(f: Frame, n: nat): (c: seq<Frame>)
    ensures |c| == n && forall i :: 0 <= i < n ==> c[i] == f
  {
    seq(n, _ => f)
  }

  datatype Wait = Acknowledged | UserSeen | Confirmed | TimedOut | Unexpected(typ: byte)

  predicate IsAckFor(f: Frame, id: byte) {
    f.typ == ACK && ExtractAckID(f.payload) == Some(id)
  }

  /** What a wait does not stop at: reliable frames and the acknowledgments of other ids. */
  predicate OnTheWay(f: Frame, id: byte) {
    if f.typ == ACK then !IsAckFor(f, id) else ReliableC64(f.typ)
  }

  /** The i-th frame of a wait is the USER frame awaited with a TEXT acknowledgment, and a fresh one. */
  predicate UserAt(before: seq<Frame>, link: seq<Frame>, i: nat)
    requires i < |link|
  {
    link[i].typ == USER && !LastVerdict(before + link[..i + 1]).duplicate
  }

  predicate AckGoesOn(id: byte, waitingTextAck: bool, before: seq<Frame>, link: seq<Frame>, i: nat)
    requires i < |link|
  {
    OnTheWay(link[i], id) && !(waitingTextAck && UserAt(before, link, i))
  }

  /** The wait for an acknowledgment stops at frame p and at none before it. */
  predicate AckStopsAt(id: byte, waitingTextAck: bool, before: seq<Frame>, link: seq<Frame>, p: nat) {
    && p < |link| && !AckGoesOn(id, waitingTextAck, before, link, p)
    && forall i :: 0 <= i < p ==> AckGoesOn(id, waitingTextAck, before, link, i)
  }

  predicate SemanticGoesOn(id: byte, name: Request, before: seq<Frame>, link: seq<Frame>, i: nat)
    requires i < |link|
  {
    if link[i].typ == ACK then RequiresSemanticConfirmation(name) || !IsAckFor(link[i], id)
    else ReliableC64(link[i].typ) && !ConfirmsAt(name, before, link, i)
  }

  predicate SemanticStopsAt(id: byte, name: Request, before: seq<Frame>, link: seq<Frame>, p: nat) {
    && p < |link| && !SemanticGoesOn(id, name, before, link, p)
    && forall i :: 0 <= i < p ==> SemanticGoesOn(id, name, before, link, i)
  }

  predicate StatusGoesOn(before: seq<Frame>, link: seq<Frame>, i: nat)
    requires i < |link|
  {
    link[i].typ == ACK || (ReliableC64(link[i].typ) && !AnswersAt(before, link, i))
  }

  predicate StatusStopsAt(before: seq<Frame>, link: seq<Frame>, p: nat) {
    && p < |link| && !StatusGoesOn(before, link, p)
    && forall i :: 0 <= i < p ==> StatusGoesOn(before, link, i)
  }

  function AckFrame(id: byte): Frame {
    Frame(ACK_TO_C64, AckToC64Payload(id))
  }

  /** What flushing these ids writes; each acknowledgment twice while a BASIC program runs. */
  function AckFrames(ids: seq<byte>, twice: bool): seq<Frame> {
    if ids == [] then [] else
    var ack := AckFrame(ids[|ids| - 1]);
    AckFrames(ids[..|ids| - 1], twice) + if twice then [ack, ack] else [ack]
  }

  /** Everything but acknowledgments. */
  function Others(out: seq<Frame>): seq<Frame> {
    if out == [] then []
    else Others(out[..|out| - 1]) + if out[|out| - 1].typ == ACK_TO_C64 then [] else [out[|out| - 1]]
  }

  lemma AckFramesMore(ids: seq<byte>, id: byte, twice: bool)
    ensures AckFrames(ids + [id], twice) ==
            AckFrames(ids, twice) + if twice then [AckFrame(id), AckFrame(id)] else [AckFrame(id)]
  {
    assert (ids + [id])[..|ids|] == ids;
  }

  lemma AckFramesNone(twice: bool)
    ensures AckFrames([], twice) == []
  {}

  lemma AckIsAck(id: byte)
    ensures AckFrame(id).typ == ACK_TO_C64
  {}

  lemma OthersMore(out: seq<Frame>, f: Frame)
    ensures Others(out + [f]) == Others(out) + if f.typ == ACK_TO_C64 then [] else [f]
  {
    assert (out + [f])[..|out|] == out;
  }

  function FramesIn(q: seq<QueuedFrame>): seq<Frame> {
    if q == [] then [] else FramesIn(q[..|q| - 1]) + [q[|q| - 1].frame]
  }

  lemma {:induction false} FramesInConcat(p: seq<QueuedFrame>, q: seq<QueuedFrame>)
    ensures FramesIn(p + q) == FramesIn(p) + FramesIn(q)
  {
    if q == [] {
      assert p + q == p;
    } else {
      assert (p + q)[..|p + q| - 1] == p + q[..|q| - 1];
      FramesInConcat(p, q[..|q| - 1]);
    }
  }

  lemma FramesInOne(x: QueuedFrame)
    ensures FramesIn([x]) == [x.frame]
  {
    assert [x][..0] == [];
  }

  class Relay {
    var nextTxId: byte
    var rxLastId: byte
    var rxLastType: byte
    var pendingAcks: seq<byte>
    var pendingFrames: seq<QueuedFrame>
    var lateAckIds: set<byte>
    var basicRunning: bool
    /** Frames already decoded from the link but not yet looked at; empty means the wait times out. */
    var incoming: seq<Frame>
    /** Frames written to the link. */
    var outgoing: seq<Frame>

    ghost var numbered: nat        // reliable bridge frames numbered so far
    ghost var heard: seq<Frame>     // every frame taken from the link
    ghost var delivered: seq<Frame> // every frame handed to the event loop
    ghost var flushed: seq<byte>    // ids whose acknowledgment was written
    ghost var written: seq<Frame>   // frames written other than acknowledgments

    /**
     * Conservation: handed over plus queued is exactly what was fresh, in arrival order, and every
     * reliable arrival's id is acknowledged or about to be.
     */
    ghost predicate Valid()
      reads this
    {
      && nextTxId == (if numbered == 0 then 0 else IdOf(numbered))
      && Newest(rxLastId, rxLastType) == After(heard)
      && delivered + FramesIn(pendingFrames) == FreshFrames(heard)
      && (forall q :: q in pendingFrames ==> q.accepted)
      && flushed + pendingAcks == AckedIds(heard)
      && AcksWritten()
    }

    constructor (link: seq<Frame>)
      ensures Valid()
      ensures incoming == link && heard == [] && delivered == [] && pendingFrames == [] && numbered == 0
    {
      nextTxId, rxLastId, rxLastType := 0, 0, 0;
      pendingAcks, pendingFrames, lateAckIds, basicRunning := [], [], {}, false;
      incoming, outgoing := link, [];
      numbered, heard, delivered, flushed, written := 0, [], [], [], [];
    }

    // ---- sending ----

    method SendNewReliable(f: Frame) returns (id: byte, framed: Frame)
      requires Valid()
      modifies this
      ensures Valid()
      ensures id == IdOf(old(numbered)) && numbered == old(numbered) + 1
      ensures framed == WithID(id, f)
      ensures outgoing == old(outgoing) + AckFrames(old(pendingAcks), basicRunning) + [framed]
      ensures pendingAcks == [] && heard == old(heard) && delivered == old(delivered)
      ensures incoming == old(incoming) && pendingFrames == old(pendingFrames)
      ensures written == old(written) + if f.typ == ACK_TO_C64 then [] else [framed]
    {
      hide After, FreshFrames, AckedIds, FramesIn, AckFrame, AckFrames, Others;
      var a := AllocID(nextTxId);
      CountersTrack(numbered);
      id, nextTxId := a.id, a.next;
      numbered := numbered + 1;
      framed := WithID(id, f);
      FlushPendingAcks();
      OthersMore(outgoing, framed);
      outgoing := outgoing + [framed];
      written := Others(outgoing);
    }

    /** The same frame again, under the same id. */
    method ResendReliable(framed: Frame)
      requires Valid()
      modifies `outgoing, `pendingAcks, `flushed, `written
      ensures Valid() && pendingAcks == []
      ensures outgoing == old(outgoing) + AckFrames(old(pendingAcks), basicRunning) + [framed]
      ensures written == old(written) + if framed.typ == ACK_TO_C64 then [] else [framed]
    {
      hide After, FreshFrames, AckedIds, FramesIn, AckFrame, AckFrames, Others;
      FlushPendingAcks();
      OthersMore(outgoing, framed);
      outgoing := outgoing + [framed];
      written := Others(outgoing);
    }

    /** An acknowledgment frame was written for every flushed id, and besides acknowledgments what `written` says. */
    ghost predicate AcksWritten()
      reads `outgoing, `flushed, `written
    {
      && (forall id :: id in flushed ==> AckFrame(id) in outgoing)
      && Others(outgoing) == written
    }

    method FlushPendingAcks()
      requires AcksWritten()
      modifies `pendingAcks, `outgoing, `flushed
      ensures AcksWritten()
      ensures pendingAcks == [] && outgoing == old(outgoing) + AckFrames(old(pendingAcks), basicRunning)
      ensures flushed == old(flushed + pendingAcks)
    {
      hide AckFrame, Others, AckFrames, AcksWritten;
      AckFramesNone(basicRunning);
      for i := 0 to |pendingAcks|
        invariant pendingAcks == old(pendingAcks)
        invariant flushed == old(flushed) + pendingAcks[..i]
        invariant AcksWritten()
        invariant outgoing == old(outgoing) + AckFrames(pendingAcks[..i], basicRunning)
      {
        WriteAck(pendingAcks[i]);
        assert pendingAcks[..i + 1] == pendingAcks[..i] + [pendingAcks[i]];
        AckFramesMore(pendingAcks[..i], pendingAcks[i], basicRunning);
      }
      assert pendingAcks[..|pendingAcks|] == pendingAcks;
      pendingAcks := [];
    }

    method WriteAck(id: byte)
      requires AcksWritten()
      modifies `outgoing, `flushed
      ensures AcksWritten() && flushed == old(flushed) + [id]
      ensures outgoing == old(outgoing) + if basicRunning then [AckFrame(id), AckFrame(id)] else [AckFrame(id)]
    {
      hide AckFrame, Others;
      var ack := AckFrame(id);
      AckIsAck(id);
      OthersMore(outgoing, ack);
      outgoing := outgoing + [ack];
      if basicRunning {
        OthersMore(outgoing, ack);
        outgoing := outgoing + [ack];
      }
      flushed := flushed + [id];
    }

    method ResendAckToC64(id: byte)
      requires AcksWritten()
      modifies `outgoing
      ensures AcksWritten() && outgoing == old(outgoing) + [AckFrame(id)]
    {
      OthersMore(outgoing, AckFrame(id));
      outgoing := outgoing + [AckFrame(id)];
    }

    // ---- receiving ----

    /** Strips the id, queues (or sends) the acknowledgment, and says whether the frame was seen before. */
    method AcceptC64FrameWith(f: Frame, flush: bool) returns (g: Frame, duplicate: bool)
      requires AcksWritten()
      modifies `rxLastId, `rxLastType, `pendingAcks, `outgoing, `flushed
      ensures AcksWritten()
      ensures var v := Accept(old(Newest(rxLastId, rxLastType)), f);
              && Newest(rxLastId, rxLastType) == v.newest && g == v.frame && duplicate == v.duplicate
              && flushed + pendingAcks == old(flushed + pendingAcks) + (if v.ack.Some? then [v.ack.value] else [])
              && (v.ack.Some? && flush ==>
                    && pendingAcks == []
                    && outgoing == old(outgoing) + AckFrames(old(pendingAcks) + [v.ack.value], basicRunning)
                                   + if f.typ == USER then [AckFrame(v.ack.value)] else [])
              && (v.ack == None || !flush ==> flushed == old(flushed) && outgoing == old(outgoing))
    {
      hide AckFrame, AckFrames, AcksWritten, GoAhead, ReliableC64;
      if !ReliableC64(f.typ) {
        return f, false;
      }
      var s := StripID(f.payload);
      if !s.ok {
        return f, false;
      }
      pendingAcks := pendingAcks + [s.id];
      if flush {
        FlushPendingAcks();
        if f.typ == USER {
          ResendAckToC64(s.id);
        }
      }
      g := Frame(f.typ, s.body);
      if s.id == rxLastId && f.typ == rxLastType {
        return g, true;
      }
      if rxLastId != 0 && !GoAhead(s.id, rxLastId) {
        return g, true;
      }
      rxLastId, rxLastType := s.id, f.typ;
      duplicate := false;
    }

    /** Accepts a reliable frame and, unless it is a duplicate, queues it for the event loop. */
    method TakeReliable(f: Frame, flush: bool) returns (g: Frame, duplicate: bool)
      requires Valid() && ReliableC64(f.typ)
      modifies `rxLastId, `rxLastType, `pendingAcks, `outgoing, `flushed, `heard, `pendingFrames
      ensures Valid() && heard == old(heard) + [f]
      ensures g == LastVerdict(heard).frame && duplicate == LastVerdict(heard).duplicate
      ensures pendingFrames == old(pendingFrames) + if duplicate then [] else [QueuedFrame(g, true)]
    {
      hide Accept, ReliableC64, AcksWritten, IdOf, After, FreshFrames, AckedIds, LastVerdict, FramesIn;
      HeardMore(heard, f);
      g, duplicate := AcceptC64FrameWith(f, flush);
      heard := heard + [f];
      if !duplicate {
        FramesInConcat(pendingFrames, [QueuedFrame(g, true)]);
        FramesInOne(QueuedFrame(g, true));
        pendingFrames := pendingFrames + [QueuedFrame(g, true)];
      }
    }

    /** Anything outside the reliable protocol changes nothing. */
    ghost method TakeOther(f: Frame)
      requires Valid() && !ReliableC64(f.typ)
      modifies `heard
      ensures Valid() && heard == old(heard) + [f]
    {
      HeardMore(heard, f);
      AcceptOther(After(heard), f);
      heard := heard + [f];
    }

    /** What every wait does with a frame first: only reliable ones have an effect. */
    method Take(f: Frame, flush: bool) returns (g: Frame, duplicate: bool)
      requires Valid()
      modifies `rxLastId, `rxLastType, `pendingAcks, `outgoing, `flushed, `heard, `pendingFrames
      ensures Valid() && heard == old(heard) + [f]
      ensures ReliableC64(f.typ) ==> duplicate == LastVerdict(heard).duplicate && g == LastVerdict(heard).frame
      ensures !ReliableC64(f.typ) ==> !duplicate && g == f && pendingAcks == old(pendingAcks)
      ensures pendingFrames ==
              old(pendingFrames) + if duplicate || !ReliableC64(f.typ) then [] else [QueuedFrame(g, true)]
    {
      hide Valid, LastVerdict, ReliableC64;
      if ReliableC64(f.typ) {
        g, duplicate := TakeReliable(f, flush);
      } else {
        TakeOther(f);
        g, duplicate := f, false;
      }
    }

    /** Takes the next frame off the link, or times out. */
    method Receive(waitingTextAck: bool) returns (f: Option<Frame>)
      requires Valid()
      modifies `incoming, `pendingAcks, `outgoing, `flushed
      ensures Valid() && pendingAcks == if waitingTextAck then old(pendingAcks) else []
      ensures outgoing == old(outgoing) + if waitingTextAck then [] else AckFrames(old(pendingAcks), basicRunning)
      ensures old(incoming) == [] ==> f == None && incoming == []
      ensures old(incoming) != [] ==> f == Some(old(incoming)[0]) && incoming == old(incoming)[1..]
    {
      hide After, FreshFrames, AckedIds, FramesIn, AckFrames, AcksWritten, IdOf;
      if !waitingTextAck {
        FlushPendingAcks();
      }
      if incoming == [] {
        return None;
      }
      f := Some(incoming[0]);
      incoming := incoming[1..];
    }

    /** The same, with the link's frames counted from the start of the wait. */
    method ReceiveNext(waitingTextAck: bool, ghost link: seq<Frame>, ghost k: nat) returns (f: Option<Frame>)
      requires Valid() && k <= |link| && incoming == link[k..]
      modifies `incoming, `pendingAcks, `outgoing, `flushed
      ensures Valid() && (!waitingTextAck ==> pendingAcks == [])
      ensures f == None ==> k == |link| && incoming == link[k..] == []
      ensures f.Some? ==>
                && k < |link| && f.value == link[k]
                && incoming == link[k + 1..] && link[..k + 1] == link[..k] + [f.value]
    {
      hide Valid;
      f := Receive(waitingTextAck);
    }

    // ---- waiting ----

    /** The first k frames of the link were taken, and the queue only grew at its end. */
    twostate predicate Took(k: nat)
      reads this
    {
      && k <= |old(incoming)|
      && heard == old(heard) + old(incoming)[..k]
      && incoming == old(incoming)[k..]
      && old(pendingFrames) <= pendingFrames
      && delivered == old(delivered) && numbered == old(numbered) && written == old(written)
    }

    /**
     * Frames are taken until one of them ends the wait or none is left; and the one that does decides
     * the result.
     */
    method WaitForAckID(id: byte, waitingTextAck: bool) returns (w: Wait, ghost k: nat)
      requires Valid()
      modifies this
      ensures Valid() && Took(k) && (!waitingTextAck ==> pendingAcks == [])
      ensures if w.TimedOut? then
                k == |old(incoming)| && forall i :: 0 <= i < k ==> AckGoesOn(id, waitingTextAck, old(heard), old(incoming), i)
              else k > 0 && AckStopsAt(id, waitingTextAck, old(heard), old(incoming), k - 1)
      ensures !w.TimedOut? ==>
                var f := old(incoming)[k - 1];
                w == if IsAckFor(f, id) then Acknowledged else if ReliableC64(f.typ) then UserSeen else Unexpected(f.typ)
      ensures w.UserSeen? ==> id in lateAckIds
      ensures forall p: nat :: AckStopsAt(id, waitingTextAck, old(heard), old(incoming), p) ==> !w.TimedOut? && k == p + 1
    {
      hide After, FreshFrames, AckedIds, LastVerdict, FramesIn, Accept, AcksWritten, Valid, ReliableC64, ExtractAckID, IsAckFor, UserAt;
      AckIsOutside();
      k := 0;
      while true
        invariant Valid() && Took(k)
        invariant forall i :: 0 <= i < k ==> AckGoesOn(id, waitingTextAck, old(heard), old(incoming), i)
        decreases |incoming|
      {
        var r := ReceiveNext(waitingTextAck, old(incoming), k);
        if r == None {
          return TimedOut, k;
        }
        var f := r.value;
        OnlyAcksCount(f, id);
        k := k + 1;
        var g, duplicate := Take(f, waitingTextAck);
        NewestOfWait(old(heard), old(incoming), k, heard);
        if f.typ == ACK {
          if IsAckFor(f, id) {
            return Acknowledged, k;
          }
          ConsumeLateAck(f);
        } else if !ReliableC64(f.typ) {
          return Unexpected(f.typ), k;
        } else if !duplicate && waitingTextAck && f.typ == USER {
          RememberLateAck(id);
          return UserSeen, k;
        }
      }
    }

    /**
     * The verified send: one new id, up to five attempts with the same frame, success on the
     * acknowledgment of that id and on nothing else.  arrivals[k] comes in during the k-th attempt;
     * ends[k] is how many frames were taken by the end of it.
     */
    method SendVerifiedWithTimeout(f: Frame, arrivals: seq<seq<Frame>>)
      returns (ok: bool, id: byte, ghost taken: seq<Frame>, ghost ends: seq<nat>)
      requires Valid() && f.typ != ACK_TO_C64
      modifies this
      ensures Valid() && id == IdOf(old(numbered)) && numbered == old(numbered) + 1
      ensures 1 <= |ends| <= ReliableLink.ATTEMPTS && (!ok ==> |ends| == ReliableLink.ATTEMPTS)
      ensures written == old(written) + Copies(WithID(id, f), |ends|)
      ensures heard == old(heard) + taken && old(pendingFrames) <= pendingFrames && delivered == old(delivered)
      ensures taken + incoming == Line(old(incoming), arrivals, |ends|) && |taken| == ends[|ends| - 1]
      ensures forall k :: 0 <= k < (if ok then |ends| - 1 else |ends|) ==> InVain(old(incoming), arrivals, ends, k, id)
      ensures ok ==> AcknowledgedAt(old(incoming), arrivals, ends, |ends| - 1, id)
      ensures forall k: nat, p: nat :: ArrivesInTime(old(incoming), arrivals, k, p, id) ==>
                ok && |ends| == k + 1 && |taken| == p + 1
    {
      hide After, FreshFrames, AckedIds, FramesIn, Accept, AckFrame, AckFrames, Others, Valid, IsAckFor, IdOf, ReliableC64;
      hide Line, InVain, AcknowledgedAt, ArrivesInTime, Copies;
      ghost var link := incoming;
      var framed;
      id, framed := SendNewReliable(f);
      taken, ends := [], [];
      LineStarts(link, arrivals);
      CopiesMore(framed, 0);
      for attempt := 0 to ReliableLink.ATTEMPTS
        invariant Valid() && |ends| == attempt && numbered == old(numbered) + 1
        invariant written == old(written) + Copies(framed, if attempt == 0 then 1 else attempt)
        invariant heard == old(heard) + taken && old(pendingFrames) <= pendingFrames && delivered == old(delivered)
        invariant taken + incoming == Line(link, arrivals, attempt) && |taken| == Start(ends, attempt)
        invariant forall k :: 0 <= k < attempt ==> InVain(link, arrivals, ends, k, id)
      {
        CopiesMore(framed, attempt);
        ghost var more;
        ok, more := Attempt(id, framed, attempt, link, arrivals, ends, taken);
        EarlierInVain(link, arrivals, ends, |taken + more|, id);
        Regroup(old(heard), taken, more);
        Regroup(old(written), Copies(framed, attempt), [framed]);
        taken, ends := taken + more, ends + [|taken + more|];
        if ok {
          InTimeMeansTaken(link, arrivals, ends, true, id);
          return;
        }
      }
      ok := false;
      InTimeMeansTaken(link, arrivals, ends, false, id);
    }

    /** One attempt: the frame goes out again unless this is the first, more comes in, and the wait. */
    method Attempt(id: byte, framed: Frame, attempt: nat, ghost link: seq<Frame>, arrivals: seq<seq<Frame>>,
                   ghost ends: seq<nat>, ghost taken: seq<Frame>)
      returns (ok: bool, ghost more: seq<Frame>)
      requires Valid() && framed.typ != ACK_TO_C64 && attempt == |ends|
      requires taken + incoming == Line(link, arrivals, |ends|) && |taken| == Start(ends, |ends|)
      modifies this
      ensures Valid() && numbered == old(numbered) && delivered == old(delivered) && old(pendingFrames) <= pendingFrames
      ensures written == old(written) + if attempt > 0 then [framed] else []
      ensures heard == old(heard) + more && (taken + more) + incoming == Line(link, arrivals, |ends| + 1)
      ensures var now := ends + [|taken + more|];
              if ok then AcknowledgedAt(link, arrivals, now, |ends|, id) else InVain(link, arrivals, now, |ends|, id)
    {
      hide After, FreshFrames, AckedIds, FramesIn, Accept, AckFrame, AckFrames, Others, Valid, IsAckFor, IdOf, ReliableC64;
      hide Line, InVain, AcknowledgedAt, AckStopsAt, AckGoesOn;
      if attempt > 0 {
        ResendReliable(framed);
      }
      LineMore(link, arrivals, |ends|, taken, incoming);
      MoreArrives(if attempt < |arrivals| then arrivals[attempt] else []);
      ghost var before, rest := heard, incoming;
      var w, k := WaitForAckID(id, false);
      AttemptEnds(link, arrivals, ends, taken, before, rest, w, k, id);
      ok, more := w.Acknowledged?, rest[..k];
    }

    /** Decoded frames keep coming in while the relay waits. */
    method MoreArrives(fs: seq<Frame>)
      requires Valid()
      modifies `incoming
      ensures Valid() && incoming == old(incoming) + fs
    {
      incoming := incoming + fs;
    }

    method RememberLateAck(id: byte)
      requires Valid()
      modifies `lateAckIds
      ensures Valid() && lateAckIds == old(lateAckIds) + {id}
    {
      lateAckIds := lateAckIds + {id};
    }

    method ConsumeLateAck(f: Frame)
      requires Valid()
      modifies `lateAckIds
      ensures Valid() && lateAckIds == old(lateAckIds) - if f.payload == [] then {} else {f.payload[0]}
    {
      hide After, FreshFrames, AckedIds, FramesIn, AckFrame, AckFrames, IdOf;
      var a := ExtractAckID(f.payload);
      if a.Some? {
        lateAckIds := lateAckIds - {a.value};
      }
    }

    method WaitForAckOrSemantic(id: byte, name: Request) returns (w: Wait, ghost k: nat)
      requires Valid()
      modifies this
      ensures Valid() && Took(k) && (w.Confirmed? ==> pendingAcks == [])
      ensures if w.TimedOut? then
                k == |old(incoming)| && forall i :: 0 <= i < k ==> SemanticGoesOn(id, name, old(heard), old(incoming), i)
              else k > 0 && SemanticStopsAt(id, name, old(heard), old(incoming), k - 1)
      ensures !w.TimedOut? ==>
                var f := old(incoming)[k - 1];
                w == if f.typ == ACK then Acknowledged else if ReliableC64(f.typ) then Confirmed else Unexpected(f.typ)
      ensures w.Confirmed? ==> id in lateAckIds
      ensures forall p: nat :: SemanticStopsAt(id, name, old(heard), old(incoming), p) ==> !w.TimedOut? && k == p + 1
    {
      hide After, FreshFrames, AckedIds, LastVerdict, FramesIn, Accept, AcksWritten, Valid, ReliableC64, Confirms, ExtractAckID, RequiresSemanticConfirmation, IsAckFor, SemanticGoesOn, SemanticStopsAt;
      AckIsOutside();
      k := 0;
      while true
        invariant Valid() && Took(k)
        invariant forall i :: 0 <= i < k ==> SemanticGoesOn(id, name, old(heard), old(incoming), i)
        decreases |incoming|
      {
        SemanticStops(id, name, old(heard), old(incoming), k);
        var r := ReceiveNext(false, old(incoming), k);
        if r == None {
          return TimedOut, k;
        }
        var f := r.value;
        OnlyAcksCount(f, id);
        k := k + 1;
        var g, duplicate := Take(f, false);
        NewestOfSemanticWait(id, name, old(heard), old(incoming), k, heard);
        if f.typ == ACK {
          if !IsAckFor(f, id) {
            ConsumeLateAck(f);
          } else if !RequiresSemanticConfirmation(name) {
            return Acknowledged, k;
          }
        } else if !ReliableC64(f.typ) {
          return Unexpected(f.typ), k;
        } else if Confirms(name, f.typ, duplicate) {
          Settle(id);
          return Confirmed, k;
        }
      }
    }

    /** The reply stands for the acknowledgment, which may still come late. */
    method Settle(id: byte)
      requires Valid()
      modifies `lateAckIds, `pendingAcks, `outgoing, `flushed
      ensures Valid() && pendingAcks == [] && lateAckIds == old(lateAckIds) + {id}
    {
      RememberLateAck(id);
      FlushPendingAcks();
    }

    method WaitForStatusSemantic() returns (w: Wait, ghost k: nat)
      requires Valid()
      modifies this
      ensures Valid() && Took(k)
      ensures if w.TimedOut? then
                k == |old(incoming)| && forall i :: 0 <= i < k ==> StatusGoesOn(old(heard), old(incoming), i)
              else k > 0 && StatusStopsAt(old(heard), old(incoming), k - 1)
      ensures !w.TimedOut? ==>
                var typ := old(incoming)[k - 1].typ;
                w == if ReliableC64(typ) then Confirmed else Unexpected(typ)
      ensures forall p: nat :: StatusStopsAt(old(heard), old(incoming), p) ==> !w.TimedOut? && k == p + 1
    {
      hide After, FreshFrames, AckedIds, LastVerdict, FramesIn, Accept, AcksWritten, Valid, ReliableC64, AnswersAt;
      AckIsOutside();
      k := 0;
      while true
        invariant Valid() && Took(k)
        invariant forall i :: 0 <= i < k ==> StatusGoesOn(old(heard), old(incoming), i)
        decreases |incoming|
      {
        var r := ReceiveNext(false, old(incoming), k);
        if r == None {
          return TimedOut, k;
        }
        var f := r.value;
        k := k + 1;
        var g, duplicate := Take(f, false);
        NewestOfWait(old(heard), old(incoming), k, heard);
        if f.typ == ACK {
          continue;
        } else if !ReliableC64(f.typ) {
          return Unexpected(f.typ), k;
        } else if !duplicate && f.typ in {STATUS, ERROR} {
          return Confirmed, k;
        }
      }
    }

    // ---- the event loop ----

    /** The next queued frame, or else the next one off the link. */
    method RecvFromC64() returns (f: Option<Frame>, accepted: bool)
      requires Valid()
      modifies `pendingFrames, `delivered, `incoming, `pendingAcks, `outgoing, `flushed
      ensures Valid() && heard == old(heard)
      ensures old(pendingFrames) != [] ==>
                && f == Some(old(pendingFrames)[0].frame) && accepted
                && pendingFrames == old(pendingFrames)[1..] && incoming == old(incoming)
                && delivered == old(delivered) + [f.value]
      ensures old(pendingFrames) == [] ==>
                && !accepted && pendingFrames == [] && delivered == old(delivered)
                && f == (if old(incoming) == [] then None else Some(old(incoming)[0]))
                && incoming == if old(incoming) == [] then [] else old(incoming)[1..]
    {
      hide After, FreshFrames, AckedIds, AcksWritten, IdOf, FramesIn;
      if pendingFrames != [] {
        var q := pendingFrames[0];
        FramesInConcat([q], pendingFrames[1..]);
        FramesInOne(q);
        assert [q] + pendingFrames[1..] == pendingFrames;
        pendingFrames := pendingFrames[1..];
        delivered := delivered + [q.frame];
        return Some(q.frame), q.accepted;
      }
      f := Receive(false);
      accepted := false;
    }

    /** A queued frame passes unchanged; one straight off the link is stripped and checked here, once. */
    method UnwrapAcceptedFrame(f: Frame, accepted: bool) returns (g: Frame, consumed: bool)
      requires Valid() && (!accepted ==> pendingFrames == [])
      modifies `rxLastId, `rxLastType, `pendingAcks, `outgoing, `flushed, `heard, `delivered
      ensures Valid()
      ensures accepted ==> g == f && !consumed && heard == old(heard) && delivered == old(delivered)
      ensures !accepted ==> heard == old(heard) + [f] && consumed == LastVerdict(heard).duplicate && g == LastVerdict(heard).frame
      ensures !accepted ==> delivered == old(delivered) + if consumed || !ReliableC64(f.typ) then [] else [g]
    {
      hide Accept, ReliableC64, AcksWritten, IdOf, After, FreshFrames, AckedIds, LastVerdict;
      if accepted {
        return f, false;
      }
      HeardMore(heard, f);
      g, consumed := AcceptC64FrameWith(f, false);
      heard := heard + [f];
      if !consumed && ReliableC64(f.typ) {
        delivered := delivered + [g];
      }
    }

    /** A frame the event loop may not handle yet goes back to the head of the queue, already accepted. */
    method HandBack(f: Frame)
      requires Valid() && delivered != [] && delivered[|delivered| - 1] == f
      modifies `pendingFrames, `delivered
      ensures Valid() && heard == old(heard)
      ensures pendingFrames == [QueuedFrame(f, true)] + old(pendingFrames)
      ensures delivered == old(delivered)[..|old(delivered)| - 1]
    {
      hide After, FreshFrames, AckedIds, AcksWritten, IdOf, FramesIn;
      FramesInConcat([QueuedFrame(f, true)], pendingFrames);
      FramesInOne(QueuedFrame(f, true));
      assert delivered == delivered[..|delivered| - 1] + [f];
      pendingFrames := [QueuedFrame(f, true)] + pendingFrames;
      delivered := delivered[..|delivered| - 1];
    }
  }

  // ---- what a verified send makes of its line ----

  /** Everything on the line by the end of the n-th attempt: what was there before, and what came in. */
  function Line(link: seq<Frame>, arrivals: seq<seq<Frame>>, n: nat): seq<Frame> {
    if n == 0 then link
    else Line(link, arrivals, n - 1) + if n <= |arrivals| then arrivals[n - 1] else []
  }

  function Start(ends: seq<nat>, k: nat): nat
    requires k <= |ends|
  {
    if k == 0 then 0 else ends[k - 1]
  }

  /** The k-th attempt ended with the line empty, or at a frame that is neither an acknowledgment nor reliable. */
  predicate InVain(link: seq<Frame>, arrivals: seq<seq<Frame>>, ends: seq<nat>, k: nat, id: byte)
    requires k < |ends|
  {
    var line, from, to := Line(link, arrivals, k + 1), Start(ends, k), ends[k];
    && from <= to <= |line|
    && (|| (to == |line| && forall i :: from <= i < to ==> OnTheWay(line[i], id))
        || (from < to && line[to - 1].typ != ACK && !ReliableC64(line[to - 1].typ)
            && forall i :: from <= i < to - 1 ==> OnTheWay(line[i], id)))
  }

  /** The k-th attempt ended with the acknowledgment. */
  predicate AcknowledgedAt(link: seq<Frame>, arrivals: seq<seq<Frame>>, ends: seq<nat>, k: nat, id: byte)
    requires k < |ends|
  {
    var line, from, to := Line(link, arrivals, k + 1), Start(ends, k), ends[k];
    && from < to <= |line| && IsAckFor(line[to - 1], id)
    && forall i :: from <= i < to - 1 ==> OnTheWay(line[i], id)
  }

  /** The acknowledgment is the p-th frame on the line, comes in during the k-th attempt, and nothing before it stops a wait. */
  predicate ArrivesInTime(link: seq<Frame>, arrivals: seq<seq<Frame>>, k: nat, p: nat, id: byte) {
    var line := Line(link, arrivals, k + 1);
    && k < ReliableLink.ATTEMPTS && p < |line| && (k == 0 || |Line(link, arrivals, k)| <= p)
    && IsAckFor(line[p], id) && forall i :: 0 <= i < p ==> OnTheWay(line[i], id)
  }

  lemma LineStarts(link: seq<Frame>, arrivals: seq<seq<Frame>>)
    ensures Line(link, arrivals, 0) == link && [] + link == link
  {}

  lemma LineMore(link: seq<Frame>, arrivals: seq<seq<Frame>>, n: nat, taken: seq<Frame>, rest: seq<Frame>)
    requires taken + rest == Line(link, arrivals, n)
    ensures taken + (rest + if n < |arrivals| then arrivals[n] else []) == Line(link, arrivals, n + 1)
  {}

  lemma {:induction false} LinePrefix(link: seq<Frame>, arrivals: seq<seq<Frame>>, m: nat, n: nat)
    requires m <= n
    ensures Line(link, arrivals, m) <= Line(link, arrivals, n)
  {
    if m < n {
      LinePrefix(link, arrivals, m, n - 1);
    }
  }

  /** One more attempt, from what its wait came to. */
  lemma AttemptEnds(link: seq<Frame>, arrivals: seq<seq<Frame>>, ends: seq<nat>, taken: seq<Frame>, before: seq<Frame>,
                    rest: seq<Frame>, w: Wait, k: nat, id: byte)
    requires taken + rest == Line(link, arrivals, |ends| + 1) && |taken| == Start(ends, |ends|) && k <= |rest|
    requires if w.TimedOut? then k == |rest| && forall i :: 0 <= i < k ==> AckGoesOn(id, false, before, rest, i)
             else k > 0 && AckStopsAt(id, false, before, rest, k - 1)
    requires !w.TimedOut? ==>
               var f := rest[k - 1];
               w == if IsAckFor(f, id) then Acknowledged else if ReliableC64(f.typ) then UserSeen else Unexpected(f.typ)
    ensures var more, n := ends + [|taken| + k], |ends|;
            && (taken + rest[..k]) + rest[k..] == Line(link, arrivals, n + 1)
            && if w.Acknowledged? then AcknowledgedAt(link, arrivals, more, n, id) else InVain(link, arrivals, more, n, id)
  {
    hide Line, LastVerdict, ReliableC64, ExtractAckID;
    var line := taken + rest;
    assert forall i :: |taken| <= i < |line| ==> line[i] == rest[i - |taken|];
    forall i | |taken| <= i < |taken| + k && (w.TimedOut? || i < |taken| + k - 1) ensures OnTheWay(line[i], id) {
      assert AckGoesOn(id, false, before, rest, i - |taken|);
    }
  }

  lemma EarlierInVain(link: seq<Frame>, arrivals: seq<seq<Frame>>, ends: seq<nat>, end: nat, id: byte)
    requires forall k :: 0 <= k < |ends| ==> InVain(link, arrivals, ends, k, id)
    ensures forall k :: 0 <= k < |ends| ==> InVain(link, arrivals, ends + [end], k, id)
  {
    hide Line, OnTheWay, ReliableC64;
    forall k | 0 <= k < |ends| ensures InVain(link, arrivals, ends + [end], k, id) {
      assert InVain(link, arrivals, ends, k, id);
    }
  }

  /** An acknowledgment that arrives in time ends the attempt it arrives in, and no earlier one ends with success. */
  lemma InTimeEnds(link: seq<Frame>, arrivals: seq<seq<Frame>>, ends: seq<nat>, j: nat, k: nat, p: nat, id: byte)
    requires ArrivesInTime(link, arrivals, k, p, id) && j < |ends| && j <= k
    requires InVain(link, arrivals, ends, j, id) || AcknowledgedAt(link, arrivals, ends, j, id)
    requires j == k && k > 0 ==> ends[k - 1] <= |Line(link, arrivals, k)|
    ensures j < k ==> InVain(link, arrivals, ends, j, id) && !AcknowledgedAt(link, arrivals, ends, j, id)
    ensures j == k ==> !InVain(link, arrivals, ends, k, id) && ends[k] == p + 1
  {
    hide Line, ReliableC64, ExtractAckID;
    LinePrefix(link, arrivals, j + 1, k + 1);
    var line, to := Line(link, arrivals, k + 1), ends[j];
    if j < k {
      LinePrefix(link, arrivals, j + 1, k);
    }
    assert 0 < to <= p ==> OnTheWay(line[to - 1], id);
  }

  lemma InTimeMeansTaken(link: seq<Frame>, arrivals: seq<seq<Frame>>, ends: seq<nat>, ok: bool, id: byte)
    requires 1 <= |ends| <= ReliableLink.ATTEMPTS && (!ok ==> |ends| == ReliableLink.ATTEMPTS)
    requires forall k :: 0 <= k < (if ok then |ends| - 1 else |ends|) ==> InVain(link, arrivals, ends, k, id)
    requires ok ==> AcknowledgedAt(link, arrivals, ends, |ends| - 1, id)
    ensures forall k: nat, p: nat :: ArrivesInTime(link, arrivals, k, p, id) ==> ok && |ends| == k + 1 && ends[k] == p + 1
  {
    hide Line, OnTheWay, ReliableC64, IsAckFor, InVain, AcknowledgedAt, ArrivesInTime;
    forall k: nat, p: nat | ArrivesInTime(link, arrivals, k, p, id) ensures ok && |ends| == k + 1 && ends[k] == p + 1 {
      if |ends| - 1 < k {
        assert ok by { Soon(link, arrivals, k, p, id); }
        InTimeEnds(link, arrivals, ends, |ends| - 1, k, p, id);
        assert false;
      }
      if k > 0 {
        assert InVain(link, arrivals, ends, k - 1, id);
        EndsInside(link, arrivals, ends, k - 1, id);
      }
      InTimeEnds(link, arrivals, ends, k, k, p, id);
    }
  }

  lemma Soon(link: seq<Frame>, arrivals: seq<seq<Frame>>, k: nat, p: nat, id: byte)
    requires ArrivesInTime(link, arrivals, k, p, id)
    ensures k < ReliableLink.ATTEMPTS
  {}

  lemma EndsInside(link: seq<Frame>, arrivals: seq<seq<Frame>>, ends: seq<nat>, k: nat, id: byte)
    requires k < |ends| && InVain(link, arrivals, ends, k, id)
    ensures ends[k] <= |Line(link, arrivals, k + 1)|
  {}

  lemma OnlyAcksCount(f: Frame, id: byte)
    ensures f.typ != ACK ==> !IsAckFor(f, id)
  {}

  /** An ERROR answers whatever was asked, STATUS all but a screenshot, RESULT what shows the screen; no reply answers anything else. */
  lemma RepliesThatConfirm(name: Request, typ: byte)
    ensures SemanticConfirmsDelivery(name, typ) <==>
            && (typ == ERROR || typ == STATUS || typ == RESULT) && !name.OtherRequest?
            && (typ == STATUS ==> !name.ScreenshotRequest?)
            && (typ == RESULT ==> name.ExecRequest? || name.ScreenshotRequest?)
    ensures RequiresSemanticConfirmation(name) <==> exists t :: SemanticConfirmsDelivery(name, t)
    ensures Confirms(name, typ, false) <==> SemanticConfirmsDelivery(name, typ)
    ensures Confirms(name, typ, true) ==> Confirms(name, typ, false)
    ensures Confirms(name, typ, true) <==> typ == STATUS && name == StatusRequest
  {
    if RequiresSemanticConfirmation(name) {
      assert SemanticConfirmsDelivery(name, ERROR);
    }
  }

  /** Each acknowledgment once, or twice in a row while a BASIC program runs. */
  lemma {:induction false} AckFramesSpelled(ids: seq<byte>)
    ensures var once, twice := AckFrames(ids, false), AckFrames(ids, true);
            && |once| == |ids| && |twice| == 2 * |ids|
            && forall k :: 0 <= k < |ids| ==>
                 var ack := Frame(ACK_TO_C64, AckToC64Payload(ids[k]));
                 once[k] == ack && twice[2 * k] == ack && twice[2 * k + 1] == ack
  {
    hide AckToC64Payload, AckFrames;
    if ids == [] {
      AckFramesNone(false);
      AckFramesNone(true);
    } else {
      var init, id := ids[..|ids| - 1], ids[|ids| - 1];
      AckFramesSpelled(init);
      assert ids == init + [id];
      AckFramesMore(init, id, false);
      AckFramesMore(init, id, true);
    }
  }

  /** The newest frame of a wait, by the verdict on everything heard. */
  lemma NewestOfWait(before: seq<Frame>, link: seq<Frame>, k: nat, heard: seq<Frame>)
    requires 0 < k <= |link| && heard == before + link[..k]
    ensures var f, duplicate := link[k - 1], LastVerdict(heard).duplicate;
            && (UserAt(before, link, k - 1) <==> f.typ == USER && !duplicate)
            && (AnswersAt(before, link, k - 1) <==> f.typ in {STATUS, ERROR} && !duplicate)
  {
    hide LastVerdict;
    assert link[..k - 1 + 1] == link[..k];
  }

  lemma NewestOfSemanticWait(id: byte, name: Request, before: seq<Frame>, link: seq<Frame>, k: nat, heard: seq<Frame>)
    requires 0 < k <= |link| && heard == before + link[..k]
    ensures var f := link[k - 1];
            SemanticGoesOn(id, name, before, link, k - 1) <==>
            if f.typ == ACK then RequiresSemanticConfirmation(name) || !IsAckFor(f, id)
            else ReliableC64(f.typ) && !Confirms(name, f.typ, LastVerdict(heard).duplicate)
  {
    hide LastVerdict, Confirms;
    assert link[..k - 1 + 1] == link[..k];
  }

  lemma SemanticStops(id: byte, name: Request, before: seq<Frame>, link: seq<Frame>, k: nat)
    requires k <= |link| && forall i :: 0 <= i < k ==> SemanticGoesOn(id, name, before, link, i)
    ensures k < |link| && !SemanticGoesOn(id, name, before, link, k) ==>
              && SemanticStopsAt(id, name, before, link, k)
              && forall p: nat :: SemanticStopsAt(id, name, before, link, p) ==> p == k
    ensures k == |link| ==> forall p: nat :: !SemanticStopsAt(id, name, before, link, p)
  {
    hide SemanticGoesOn;
  }

  lemma Regroup(a: seq<Frame>, b: seq<Frame>, c: seq<Frame>)
    ensures (a + b) + c == a + (b + c)
  {}

  lemma CopiesMore(f: Frame, n: nat)
    ensures Copies(f, n + 1) == Copies(f, n) + [f] && Copies(f, 1) == [f]
  {}

  lemma AckIsOutside()
    ensures !ReliableC64(ACK)
  {}

  /** What one more arrival adds. */
  lemma HeardMore(heard: seq<Frame>, f: Frame)
    ensures var v := Accept(After(heard), f);
            && LastVerdict(heard + [f]) == v
            && After(heard + [f]) == v.newest
            && FreshFrames(heard + [f]) ==
               FreshFrames(heard) + (if ReliableC64(f.typ) && !v.duplicate then [v.frame] else [])
            && AckedIds(heard + [f]) == AckedIds(heard) + (if v.ack.Some? then [v.ack.value] else [])
  {
    assert (heard + [f])[..|heard|] == heard;
  }
}
