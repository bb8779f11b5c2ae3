/** Texts cut into chunks, from one end's memory to the other end's handler. */
module TextDelivery {
  import opened Wire
  import opened Frames
  import opened GoCodec
  import opened Inbox
  import opened Streams
  import opened SenderRuns
  import opened Reassembly
  import opened EndToEnd
  import L = LineRuns
  import GoStreams
  import Outbound
  import ScreenResult
  import SoulPrompt

  // ---- the frames of one type among all that are built ----

  function OfType(typ: byte, fs: seq<Frame>): seq<Frame> {
    if fs == [] then [] else
    OfType(typ, fs[..|fs| - 1]) + if fs[|fs| - 1].typ == typ then [fs[|fs| - 1]] else []
  }

  lemma {:induction false} DulledOfType(typ: byte, fs: seq<Frame>)
    ensures OfType(typ, L.DulledAll(fs)) == L.DulledAll(OfType(typ, fs))
  {
    hide Masked;
    if fs != [] {
      var init, f := fs[..|fs| - 1], fs[|fs| - 1];
      DulledOfType(typ, init);
      assert L.DulledAll(fs)[..|fs| - 1] == L.DulledAll(init);
    } else {
      assert L.DulledAll(fs) == [] == L.DulledAll(OfType(typ, fs));
    }
  }

  /** If of every frame of this type a copy arrives, losing others does not matter to it. */
  lemma {:induction false} PresentOfType(typ: byte, built: seq<Frame>, arrived: seq<nat>)
    requires |built| == |arrived| && forall i :: 0 <= i < |built| && built[i].typ == typ ==> arrived[i] > 0
    ensures OfType(typ, Present(built, arrived)) == OfType(typ, built)
  {
    if built != [] {
      var n := |built|;
      PresentOfType(typ, built[..n - 1], arrived[..n - 1]);
      var p := Present(built[..n - 1], arrived[..n - 1]);
      if arrived[n - 1] > 0 {
        assert (p + [built[n - 1]])[..|p|] == p;
      } else {
        assert p + [] == p;
      }
    }
  }

  lemma DulledParts(a: seq<Frame>, b: seq<Frame>)
    ensures L.DulledAll(a + b) == L.DulledAll(a) + L.DulledAll(b)
  {
    hide Dulled;
  }

  /** After the frames taken for `earlier` ones come those of `frames`. */
  lemma TakenAfter(taken: seq<Frame>, typ: byte, built: seq<Frame>, earlier: seq<Frame>, frames: seq<Frame>)
    requires OfType(typ, built) == earlier + frames && OfType(typ, taken) == OfType(typ, L.DulledAll(built))
    ensures |earlier| <= |OfType(typ, taken)| && OfType(typ, taken)[|earlier|..] == L.DulledAll(frames)
  {
    hide OfType, Dulled;
    DulledOfType(typ, built);
    DulledParts(earlier, frames);
  }

  // ---- chunks on a seven-bit line ----

  lemma ScrapedIsClean(screen: ScreenResult.Screen, first: nat, last: nat)
    requires first <= last < ScreenResult.ROWS
    ensures var frames := ScreenResult.Scraped(screen, first, last);
            && AllBuildable(frames)
            && L.DulledAll(frames) == frames
  {
    ScreenResult.ChunksCover(screen, first, last);
    ScreenResult.TextBounds(screen, first, last);
    var text := ScreenResult.Text(screen, first, last);
    ChunksAreSendable(RESULT, text, ScreenResult.ChunkCount(text));
  }

  /** Chunks fit the buffer with their id, and survive the line exactly if text and chunk numbers are seven-bit. */
  lemma ChunksAreSendable(typ: byte, text: seq<byte>, total: nat)
    requires Covers(text, total) && typ in {RESULT, SYSTEM}
    ensures var frames := ChunkFrames(typ, text, total);
            && AllBuildable(frames)
            && (L.DulledAll(frames) == frames <==> SevenBit(text) && total < 0x80)
  {
    hide Dulled;
    var frames := ChunkFrames(typ, text, total);
    L.DulledExactly(frames);
    forall i | 0 <= i < total ensures SevenBit(frames[i].payload) <==> SevenBit(Piece(text, i)) && total < 0x80 {
      ChunkSevenBit(typ, text, total, i);
    }
    PiecesSevenBit(text, total);
    assert SevenBit(frames[0].payload) <==> SevenBit(Piece(text, 0)) && total < 0x80;
    if SevenBit(text) && total < 0x80 {
      assert forall i :: 0 <= i < total ==> SevenBit(frames[i].payload);
    } else if !SevenBit(text) {
      var i :| 0 <= i < total && !SevenBit(Piece(text, i));
      assert !SevenBit(frames[i].payload);
    }
  }

  lemma ChunkSevenBit(typ: byte, text: seq<byte>, total: nat, i: nat)
    requires i < total < 0x100
    ensures SevenBit(ChunkFrame(typ, text, total, i).payload) <==> SevenBit(Piece(text, i)) && total < 0x80
  {
    hide Piece;
    var p, q := ChunkFrame(typ, text, total, i).payload, Piece(text, i);
    assert p[1] == total && p[0] == i;
    assert forall k :: 0 <= k < |q| ==> p[2 + k] == q[k];
  }

  lemma PiecesSevenBit(text: seq<byte>, total: nat)
    requires Covers(text, total)
    ensures SevenBit(text) <==> forall i :: 0 <= i < total ==> SevenBit(Piece(text, i))
  {
    if !SevenBit(text) {
      var k :| 0 <= k < |text| && text[k] >= 0x80;
      var i := k / CHUNK_MAX;
      assert Piece(text, i)[k - CHUNK_MAX * i] == text[k];
      assert !SevenBit(Piece(text, i));
    }
  }

  // ---- screens ----

  /**
   * A screen scraped on the C64 arrives: in every run that builds the scraper's RESULT frames, with
   * frames of other types between them, and whatever an earlier result left behind, the bridge's
   * handler returns exactly the screen's text, with the last chunk.
   */
  lemma ScreenArrives(events: seq<L.Event>, earlier: seq<Frame>,
                      screen: ScreenResult.Screen, first: nat, last: nat, before: Option<Chunks>)
    requires L.AllAdmissible(events) && L.Tidy(events) && NewestSent(L.Run(events).log)
    requires first <= last < ScreenResult.ROWS
    requires OfType(RESULT, L.Run(events).log.built) == earlier + ScreenResult.Scraped(screen, first, last)
    ensures var results := OfType(RESULT, FreshFrames(DecodeAll(L.Run(events).wire)));
            var text := ScreenResult.Text(screen, first, last);
            && |earlier| <= |results|
            && ResultRun(before, results[|earlier|..]) == (None, Nones(|text| / CHUNK_MAX) + [Some(text)])
  {
    hide L.Run, L.Tidy, FreshFrames, DecodeAll, OfType, ScreenResult.Scraped, ScreenResult.Text, ResultRun;
    var built, taken := L.Run(events).log.built, FreshFrames(DecodeAll(L.Run(events).wire));
    SentIsTaken(events);
    TakenAfter(taken, RESULT, built, earlier, ScreenResult.Scraped(screen, first, last));
    ScrapedIsClean(screen, first, last);
    ScreenResult.TextArrives(screen, first, last, before);
  }

  /** The same over every line on which each RESULT frame has a copy that survives. */
  lemma ScreenArrivesOverLossyLine(events: seq<L.Event>, line: seq<seq<Segment>>, earlier: seq<Frame>,
                                   screen: ScreenResult.Screen, first: nat, last: nat, before: Option<Chunks>)
    requires L.AllAdmissible(events) && OnLine(L.Run(events), line)
    requires GoStreams.GoStream(Together(line)) && NoLargeHole(Survivors(line))
    requires first <= last < ScreenResult.ROWS
    requires OfType(RESULT, L.Run(events).log.built) == earlier + ScreenResult.Scraped(screen, first, last)
    requires forall i :: 0 <= i < |line| && L.Run(events).log.built[i].typ == RESULT ==> Survivors(line)[i] > 0
    ensures var results := OfType(RESULT, FreshFrames(DecodeAll(Flat(Together(line)))));
            var text := ScreenResult.Text(screen, first, last);
            && |earlier| <= |results|
            && ResultRun(before, results[|earlier|..]) == (None, Nones(|text| / CHUNK_MAX) + [Some(text)])
  {
    hide L.Run, FreshFrames, DecodeAll, OfType, ScreenResult.Scraped, ScreenResult.Text, Present, Survivors, Together,
         GoStreams.GoStream, NoLargeHole, CopiesOf, IntactCopies, Flat, ResultRun;
    var built := L.Run(events).log.built;
    LossyLine(events, line);
    var taken := FreshFrames(DecodeAll(Flat(Together(line))));
    PresentOfType(RESULT, L.DulledAll(built), Survivors(line));
    TakenAfter(taken, RESULT, built, earlier, ScreenResult.Scraped(screen, first, last));
    ScrapedIsClean(screen, first, last);
    ScreenResult.TextArrives(screen, first, last, before);
  }

  // ---- the system prompt: on a seven-bit line it arrives exactly if it is seven-bit and not too long ----

  /** Taking SYSTEM frames one after the other. */
  function SystemFold(s: Prompted, fs: seq<Frame>): Prompted {
    if fs == [] then s else SystemStep(SystemFold(s, fs[..|fs| - 1]), fs[|fs| - 1])
  }

  function UpTo(n: nat): (order: seq<nat>)
    ensures |order| == n && forall i :: 0 <= i < n ==> order[i] == i
  {
    seq(n, i => i)
  }

  lemma {:induction false} FoldIsRun(s: Prompted, text: seq<byte>, total: nat, k: nat)
    requires k <= total < 0x100
    ensures SystemFold(s, ChunkFrames(SYSTEM, text, total)[..k]) == SystemRun(s, text, total, UpTo(k))
  {
    hide ChunkFrame, SystemStep;
    if k > 0 {
      var c := ChunkFrames(SYSTEM, text, total);
      assert c[..k][..k - 1] == c[..k - 1];
      assert UpTo(k)[..k - 1] == UpTo(k - 1);
      FoldIsRun(s, text, total, k - 1);
    }
  }

  lemma {:induction false} SeenUpTo(n: nat)
    ensures Seen(UpTo(n)) == Below(n)
  {
    if n > 0 {
      SeenUpTo(n - 1);
      assert UpTo(n) == UpTo(n - 1) + [n - 1];
    }
  }

  /** The longest prompt whose chunk count fits in seven bits, in seven-bit characters. */
  predicate FitsSevenBits(soul: seq<byte>) {
    SevenBit(SoulPrompt.Converted(soul)) && SoulPrompt.PromptChunks(soul) < 0x80
  }

  /** Frames as a line leaves them whose chunk count lost bit 7. */
  predicate Shrunk(f: Frame, total: nat) {
    |f.payload| >= 2 && f.payload[1] == total && |f.payload| <= CHUNK_MAX + 2
  }

  predicate Small(m: Option<Chunks>) {
    m.Some? ==> forall i :: i in m.value ==> |m.value[i]| <= CHUNK_MAX
  }

  lemma {:induction false} JoinedSmall(m: Chunks, total: nat)
    requires Small(Some(m))
    ensures |Joined(m, total)| <= CHUNK_MAX * total
  {
    if total > 0 { JoinedSmall(m, total - 1); }
  }

  /** With too small a chunk count the bridge never assembles more than that many chunks. */
  lemma {:induction false} ShrunkFold(before: seq<byte>, fs: seq<Frame>, total: nat)
    requires forall i :: 0 <= i < |fs| ==> Shrunk(fs[i], total)
    ensures var s := SystemFold(Prompted(None, before), fs);
            Small(s.chunks) && (s.prompt == before || |s.prompt| <= CHUNK_MAX * total)
  {
    if fs != [] {
      var init, f := fs[..|fs| - 1], fs[|fs| - 1];
      ShrunkFold(before, init, total);
      var s := SystemFold(Prompted(None, before), init);
      var m: Chunks := (if s.chunks == None then map[] else s.chunks.value)[f.payload[0] := f.payload[2..]];
      JoinedSmall(m, total);
    }
  }

  predicate Sevens(m: Option<Chunks>) {
    m.Some? ==> forall i :: i in m.value ==> SevenBit(m.value[i])
  }

  lemma {:induction false} JoinedSevenBit(m: Chunks, total: nat)
    requires Sevens(Some(m))
    ensures SevenBit(Joined(m, total))
  {
    if total > 0 { JoinedSevenBit(m, total - 1); }
  }

  /** Whatever seven-bit frames arrive, the prompt is the old one or seven-bit. */
  lemma {:induction false} SevenBitFold(before: seq<byte>, fs: seq<Frame>)
    requires forall i :: 0 <= i < |fs| ==> SevenBit(fs[i].payload)
    ensures var s := SystemFold(Prompted(None, before), fs);
            Sevens(s.chunks) && (s.prompt == before || SevenBit(s.prompt))
  {
    if fs != [] {
      var init, f := fs[..|fs| - 1], fs[|fs| - 1];
      SevenBitFold(before, init);
      if |f.payload| >= 2 {
        var s := SystemFold(Prompted(None, before), init);
        var m: Chunks := (if s.chunks == None then map[] else s.chunks.value)[f.payload[0] := f.payload[2..]];
        JoinedSevenBit(m, f.payload[1]);
      }
    }
  }

  /** The folded chunks, after the line took bit 7 away. */
  lemma SoulFolded(soul: seq<byte>, before: seq<byte>)
    requires SoulPrompt.Fits(soul) && before != SoulPrompt.Converted(soul)
    ensures SystemFold(Prompted(None, before), L.DulledAll(SoulPrompt.SoulFrames(soul))).prompt == SoulPrompt.Converted(soul)
            <==> FitsSevenBits(soul)
  {
    hide SoulPrompt.Converted, SoulPrompt.PromptChunks, SystemFold, SystemRun, Dulled, Piece, ChunkFrame;
    SoulPrompt.ChunksCover(soul);
    var text, total := SoulPrompt.Converted(soul), SoulPrompt.PromptChunks(soul);
    var c := ChunkFrames(SYSTEM, text, total);
    ChunksAreSendable(SYSTEM, text, total);
    if FitsSevenBits(soul) {
      assert c[..total] == c;
      FoldIsRun(Prompted(None, before), text, total, total);
      SeenUpTo(total);
      SoulPrompt.SoulArrives(soul, before, UpTo(total));
    } else if !SevenBit(text) {
      DulledSevenBit(c);
      SevenBitFold(before, L.DulledAll(c));
    } else {
      DulledShrunk(text, total);
      ShrunkFold(before, L.DulledAll(c), total - 0x80);
    }
  }

  lemma DulledSevenBit(fs: seq<Frame>)
    ensures forall i :: 0 <= i < |fs| ==> SevenBit(L.DulledAll(fs)[i].payload)
  {}

  lemma DulledShrunk(text: seq<byte>, total: nat)
    requires Covers(text, total) && total >= 0x80
    ensures var c := L.DulledAll(ChunkFrames(SYSTEM, text, total));
            forall i :: 0 <= i < |c| ==> Shrunk(c[i], total - 0x80)
  {
    var c := ChunkFrames(SYSTEM, text, total);
    forall i | 0 <= i < total ensures Shrunk(Dulled(c[i]), total - 0x80) {
      ChunkParts(SYSTEM, text, total, i);
      assert |c[i].payload| == 2 + |Piece(text, i)|;
    }
  }

  /**
   * The C64's system prompt arrives, in every run that builds the prompter's SYSTEM frames, exactly
   * if its text is seven-bit and it has at most 127 chunks, since the chunk count travels in a byte
   * whose bit 7 the line does not keep.
   */
  lemma SoulReachesBridge(events: seq<L.Event>, earlier: seq<Frame>, soul: seq<byte>, before: seq<byte>)
    requires L.AllAdmissible(events) && L.Tidy(events) && NewestSent(L.Run(events).log)
    requires SoulPrompt.Fits(soul) && before != SoulPrompt.Converted(soul)
    requires OfType(SYSTEM, L.Run(events).log.built) == earlier + SoulPrompt.SoulFrames(soul)
    ensures var chunks := OfType(SYSTEM, FreshFrames(DecodeAll(L.Run(events).wire)));
            && |earlier| <= |chunks|
            && (SystemFold(Prompted(None, before), chunks[|earlier|..]).prompt == SoulPrompt.Converted(soul) <==> FitsSevenBits(soul))
  {
    hide L.Run, L.Tidy, FreshFrames, DecodeAll, SystemFold, SoulPrompt.Converted, SoulPrompt.SoulFrames, FitsSevenBits, OfType;
    var built, taken := L.Run(events).log.built, FreshFrames(DecodeAll(L.Run(events).wire));
    SentIsTaken(events);
    TakenAfter(taken, SYSTEM, built, earlier, SoulPrompt.SoulFrames(soul));
    SoulFolded(soul, before);
  }

  /** The assembler refuses a prompt that reaches the shadow of the BASIC ROM, so only the text matters. */
  lemma AssembledPromptIsShort(soul: seq<byte>)
    requires SoulPrompt.Fits(soul) && SoulPrompt.SOUL_BASE + |soul| <= SoulPrompt.COLD_CODE_BASE
    ensures SoulPrompt.PromptChunks(soul) <= 18
    ensures FitsSevenBits(soul) <==> SevenBit(SoulPrompt.Converted(soul))
  {
    hide SoulPrompt.Converted;
  }

  // ---- such runs exist ----

  function Lifted(events: seq<Outbound.Event>): (lifted: seq<L.Event>)
    ensures |lifted| == |events| && forall i :: 0 <= i < |events| ==> lifted[i] == L.Sender(events[i])
  {
    seq(|events|, i requires 0 <= i < |events| => L.Sender(events[i]))
  }

  lemma {:induction false} LiftedRun(events: seq<Outbound.Event>)
    requires AllAdmissible(events)
    ensures L.AllAdmissible(Lifted(events)) && L.Tidy(Lifted(events))
    ensures L.Run(Lifted(events)).log == Run(events)
  {
    hide L.LineInv, Inv, Ended, Step, Emitted;
    if events != [] {
      var init := events[..|events| - 1];
      LiftedRun(init);
      assert Lifted(events)[..|events| - 1] == Lifted(init);
    }
  }

  /** For every screen and range of lines, a run that delivers exactly its text. */
  lemma SomeRunDeliversTheScreen(screen: ScreenResult.Screen, first: nat, last: nat, before: Option<Chunks>)
    returns (events: seq<L.Event>)
    requires first <= last < ScreenResult.ROWS
    ensures L.AllAdmissible(events) && L.Tidy(events)
    ensures var results := OfType(RESULT, FreshFrames(DecodeAll(L.Run(events).wire)));
            var text := ScreenResult.Text(screen, first, last);
            ResultRun(before, results) == (None, Nones(|text| / CHUNK_MAX) + [Some(text)])
  {
    hide L.Run, L.Tidy, Run, FreshFrames, DecodeAll, ResultRun, OfType, ScreenResult.Scraped, ScreenResult.Text;
    var frames := ScreenResult.Scraped(screen, first, last);
    ScrapedIsClean(screen, first, last);
    var inner := SomeRunBuilds(frames);
    events := Lifted(inner);
    LiftedRun(inner);
    ScrapedType(screen, first, last);
    assert [] + frames == frames;
    ScreenArrives(events, [], screen, first, last, before);
    var results := OfType(RESULT, FreshFrames(DecodeAll(L.Run(events).wire)));
    assert results[0..] == results;
  }

  lemma ScrapedType(screen: ScreenResult.Screen, first: nat, last: nat)
    requires first <= last < ScreenResult.ROWS
    ensures OfType(RESULT, ScreenResult.Scraped(screen, first, last)) == ScreenResult.Scraped(screen, first, last)
  {
    hide ScreenResult.Text;
    AllOfType(RESULT, ScreenResult.Scraped(screen, first, last));
  }

  lemma {:induction false} AllOfType(typ: byte, fs: seq<Frame>)
    requires forall i :: 0 <= i < |fs| ==> fs[i].typ == typ
    ensures OfType(typ, fs) == fs
  {
    if fs != [] { AllOfType(typ, fs[..|fs| - 1]); }
  }

  /** And for every prompt, a run that builds and sends it. */
  lemma SomeRunSendsThePrompt(soul: seq<byte>) returns (events: seq<L.Event>)
    requires SoulPrompt.Fits(soul)
    ensures L.AllAdmissible(events) && L.Tidy(events) && NewestSent(L.Run(events).log)
    ensures OfType(SYSTEM, L.Run(events).log.built) == SoulPrompt.SoulFrames(soul)
  {
    hide L.Run, L.Tidy, Run, SoulPrompt.Converted;
    SoulPrompt.ChunksCover(soul);
    ChunksAreSendable(SYSTEM, SoulPrompt.Converted(soul), SoulPrompt.PromptChunks(soul));
    var inner := SomeRunBuilds(SoulPrompt.SoulFrames(soul));
    events := Lifted(inner);
    LiftedRun(inner);
    AllOfType(SYSTEM, SoulPrompt.SoulFrames(soul));
  }
}
