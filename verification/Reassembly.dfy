/** Long texts cut into numbered chunks, and the bridge's two ways of putting them together again. */
module Reassembly {
  import opened Wire
  import opened Frames

  const CHUNK_MAX: nat := 120

  function Min(a: nat, b: nat): nat { if a < b then a else b }

  /** The i-th chunk of a text; empty past its end. */
  function Piece(text: seq<byte>, i: nat): seq<byte> {
    text[Min(CHUNK_MAX * i, |text|)..Min(CHUNK_MAX * (i + 1), |text|)]
  }

  /** Enough chunks, and few enough for a byte. */
  predicate Covers(text: seq<byte>, total: nat) {
    0 < total < 0x100 && |text| <= CHUNK_MAX * total
  }

  function ChunkFrame(typ: byte, text: seq<byte>, total: nat, i: nat): Frame
    requires i < total < 0x100
  {
    Frame(typ, [i, total] + Piece(text, i))
  }

  lemma ChunkParts(typ: byte, text: seq<byte>, total: nat, i: nat)
    requires i < total < 0x100
    ensures var p := ChunkFrame(typ, text, total, i).payload;
            |p| >= 2 && p[0] == i && p[1] == total && p[2..] == Piece(text, i)
  {
    hide Piece;
  }

  function ChunkFrames(typ: byte, text: seq<byte>, total: nat): (c: seq<Frame>)
    requires total < 0x100
    ensures |c| == total
    ensures forall i :: 0 <= i < total ==> c[i] == ChunkFrame(typ, text, total, i)
  {
    seq(total, i requires 0 <= i < total => ChunkFrame(typ, text, total, i))
  }

  // ---- the bridge's maps from chunk number to text ----

  type Chunks = map<nat, seq<byte>>

  /** A missing entry reads as the empty string. */
  function Lookup(m: Chunks, i: nat): seq<byte> {
    if i in m then m[i] else []
  }

  function Joined(m: Chunks, total: nat): seq<byte> {
    if total == 0 then [] else Joined(m, total - 1) + Lookup(m, total - 1)
  }

  /** Everything in the map is a chunk of this text. */
  ghost predicate PartOf(m: Chunks, text: seq<byte>, total: nat) {
    forall i :: i in m ==> i < total && m[i] == Piece(text, i)
  }

  function Below(n: nat): (s: set<nat>)
    ensures forall i: nat :: i in s <==> i < n
  {
    if n == 0 then {} else Below(n - 1) + {n - 1}
  }

  lemma {:induction false} BelowSize(n: nat)
    ensures |Below(n)| == n
  {
    hide Below;
    BelowGrows(n);
    if n > 0 {
      BelowSize(n - 1);
    }
  }

  lemma BelowGrows(n: nat)
    ensures if n == 0 then Below(n) == {} else Below(n) == Below(n - 1) + {n - 1} && n - 1 !in Below(n - 1)
  {}

  /** A partial map is complete when it has as many entries as there are chunks. */
  lemma CompleteBySize(m: Chunks, text: seq<byte>, total: nat)
    requires PartOf(m, text, total)
    ensures |m| <= total
    ensures |m| == total <==> m.Keys == Below(total)
  {
    BelowSize(total);
    assert m.Keys <= Below(total);
    SubsetSize(m.Keys, Below(total));
    assert |m| == |m.Keys|;
  }

  lemma SubsetSize(a: set<nat>, b: set<nat>)
    requires a <= b
    ensures |a| <= |b| && (|a| == |b| <==> a == b)
  {
    assert b == a + (b - a);
    if |a| == |b| {
      assert |b - a| == 0;
    }
  }

  lemma {:induction false} JoinedPieces(m: Chunks, text: seq<byte>, total: nat, k: nat)
    requires PartOf(m, text, total) && k <= total && Below(k) <= m.Keys
    ensures Joined(m, k) == text[..Min(CHUNK_MAX * k, |text|)]
  {
    hide Min;
    if k == 0 {
      NothingBefore(text);
    } else {
      assert k - 1 in Below(k);
      JoinedPieces(m, text, total, k - 1);
      PieceContinues(text, k - 1);
    }
  }

  lemma NothingBefore(text: seq<byte>)
    ensures text[..Min(CHUNK_MAX * 0, |text|)] == []
  {}

  lemma PieceContinues(text: seq<byte>, i: nat)
    ensures text[..Min(CHUNK_MAX * i, |text|)] + Piece(text, i) == text[..Min(CHUNK_MAX * (i + 1), |text|)]
  {
    var a, b := Min(CHUNK_MAX * i, |text|), Min(CHUNK_MAX * (i + 1), |text|);
    assert a <= b;
    assert text[..b] == text[..a] + text[a..b];
  }

  class Collector {
    var resultChunks: Option<Chunks>
    var promptChunks: Option<Chunks>
    var systemPrompt: seq<byte>

    constructor ()
      ensures resultChunks == None && promptChunks == None && systemPrompt == []
    {
      resultChunks, promptChunks, systemPrompt := None, None, [];
    }

    /** The chunk with number 0 starts a new result; the last missing one completes it. */
    method HandleResultFrame(f: Frame) returns (done: Option<seq<byte>>)
      modifies `resultChunks
      ensures ResultStep(old(resultChunks), f) == Gathered(resultChunks, done)
    {
      if |f.payload| < 2 {
        return None;
      }
      var idx, total, text := f.payload[0], f.payload[1], f.payload[2..];
      var m := if idx == 0 || resultChunks == None then map[] else resultChunks.value;
      m := m[idx := text];
      resultChunks := Some(m);
      if |m| != total {
        return None;
      }
      var result := Join(m, total);
      resultChunks := None;
      done := Some(result);
    }

    method HandleSystemFrame(f: Frame)
      modifies `promptChunks, `systemPrompt
      ensures SystemStep(old(Prompted(promptChunks, systemPrompt)), f) == Prompted(promptChunks, systemPrompt)
    {
      if |f.payload| < 2 {
        return;
      }
      var idx, total, text := f.payload[0], f.payload[1], f.payload[2..];
      var m := if promptChunks == None then map[] else promptChunks.value;
      m := m[idx := text];
      promptChunks := Some(m);
      if |m| == total {
        systemPrompt := Join(m, total);
        promptChunks := None;
      }
    }

    static method Join(m: Chunks, total: nat) returns (text: seq<byte>)
      ensures text == Joined(m, total)
    {
      text := [];
      for i := 0 to total
        invariant text == Joined(m, i)
      {
        text := text + if i in m then m[i] else [];
      }
    }
  }

  // ---- results: in order, whatever was left over before ----

  datatype Gathered = Gathered(chunks: Option<Chunks>, done: Option<seq<byte>>)

  function ResultStep(before: Option<Chunks>, f: Frame): Gathered {
    if |f.payload| < 2 then Gathered(before, None)
    else ResultPlaced(before, f.payload[0], f.payload[1], f.payload[2..])
  }

  function ResultPlaced(before: Option<Chunks>, idx: nat, total: nat, text: seq<byte>): Gathered {
    var m := (if idx == 0 || before == None then map[] else before.value)[idx := text];
    if |m| != total then Gathered(Some(m), None) else Gathered(None, Some(Joined(m, total)))
  }

  /** What is pending and what came out after a sequence of RESULT frames. */
  function ResultRun(before: Option<Chunks>, fs: seq<Frame>): (Option<Chunks>, seq<Option<seq<byte>>>) {
    if fs == [] then (before, []) else
    var (m, out) := ResultRun(before, fs[..|fs| - 1]);
    var g := ResultStep(m, fs[|fs| - 1]);
    (g.chunks, out + [g.done])
  }

  function Nones(n: nat): seq<Option<seq<byte>>> {
    seq(n, _ => None)
  }

  /** The chunks of a result, in order, give back the text with the last of them, and nothing sooner. */
  lemma ResultArrives(before: Option<Chunks>, text: seq<byte>, total: nat)
    requires Covers(text, total)
    ensures ResultRun(before, ChunkFrames(RESULT, text, total)) == (None, Nones(total - 1) + [Some(text)])
  {
    var c := ChunkFrames(RESULT, text, total);
    ResultSoFar(before, text, total, total - 1);
    LastChunk(before, text, total);
  }

  /** Pending after k chunks: exactly those k. */
  function FirstPieces(text: seq<byte>, k: nat): Chunks {
    map i: nat | i in Below(k) :: Piece(text, i)
  }

  lemma {:induction false} ResultSoFar(before: Option<Chunks>, text: seq<byte>, total: nat, k: nat)
    requires Covers(text, total) && k < total
    ensures var r := ResultRun(before, ChunkFrames(RESULT, text, total)[..k]);
            r.0 == (if k == 0 then before else Some(FirstPieces(text, k))) && r.1 == Nones(k)
  {
    hide Piece, ChunkFrame, ResultStep, FirstPieces, Joined;
    if k > 0 {
      var c := ChunkFrames(RESULT, text, total);
      ResultSoFar(before, text, total, k - 1);
      assert c[..k][..k - 1] == c[..k - 1] && c[..k][k - 1] == ChunkFrame(RESULT, text, total, k - 1);
      StepPieces(if k == 1 then before else Some(FirstPieces(text, k - 1)), text, total, k - 1);
    }
  }

  lemma PiecesSize(text: seq<byte>, k: nat)
    ensures |FirstPieces(text, k)| == k
  {
    BelowSize(k);
    assert FirstPieces(text, k).Keys == Below(k);
  }

  lemma AllPieces(text: seq<byte>, total: nat)
    requires Covers(text, total)
    ensures Joined(FirstPieces(text, total), total) == text
  {
    JoinedPieces(FirstPieces(text, total), text, total, total);
    assert text[..|text|] == text;
  }

  lemma StepPieces(m: Option<Chunks>, text: seq<byte>, total: nat, i: nat)
    requires Covers(text, total) && i < total
    requires i > 0 ==> m == Some(FirstPieces(text, i))
    ensures var f := ChunkFrame(RESULT, text, total, i);
            ResultStep(m, f) ==
            if i + 1 != total then Gathered(Some(FirstPieces(text, i + 1)), None)
            else Gathered(None, Some(Joined(FirstPieces(text, total), total)))
  {
    hide Piece, ChunkFrame;
    ChunkParts(RESULT, text, total, i);
    var from: Chunks := if i == 0 then map[] else FirstPieces(text, i);
    assert from[i := Piece(text, i)] == FirstPieces(text, i + 1);
    PiecesSize(text, i + 1);
  }

  lemma LastChunk(before: Option<Chunks>, text: seq<byte>, total: nat)
    requires Covers(text, total)
    requires var r := ResultRun(before, ChunkFrames(RESULT, text, total)[..total - 1]);
             r.0 == (if total == 1 then before else Some(FirstPieces(text, total - 1))) && r.1 == Nones(total - 1)
    ensures ResultRun(before, ChunkFrames(RESULT, text, total)) == (None, Nones(total - 1) + [Some(text)])
  {
    hide Piece, ChunkFrame, ResultStep, FirstPieces, Joined;
    StepPieces(if total == 1 then before else Some(FirstPieces(text, total - 1)), text, total, total - 1);
    AllPieces(text, total);
  }

  // ---- the system prompt: any order, with repetitions ----

  datatype Prompted = Prompted(chunks: Option<Chunks>, prompt: seq<byte>)

  function SystemStep(s: Prompted, f: Frame): Prompted {
    if |f.payload| < 2 then s else SystemPlaced(s, f.payload[0], f.payload[1], f.payload[2..])
  }

  function SystemPlaced(s: Prompted, idx: nat, total: nat, text: seq<byte>): Prompted {
    var m := (if s.chunks == None then map[] else s.chunks.value)[idx := text];
    if |m| != total then Prompted(Some(m), s.prompt) else Prompted(None, Joined(m, total))
  }

  predicate InRange(order: seq<nat>, total: nat) {
    forall k :: 0 <= k < |order| ==> order[k] < total
  }

  /** The chunks with these numbers arrive, in this order. */
  function SystemRun(s: Prompted, text: seq<byte>, total: nat, order: seq<nat>): Prompted
    requires total < 0x100 && InRange(order, total)
  {
    if order == [] then s else
    var t := SystemRun(s, text, total, order[..|order| - 1]);
    SystemStep(t, ChunkFrame(SYSTEM, text, total, order[|order| - 1]))
  }

  function Seen(order: seq<nat>): set<nat> {
    set i | i in order
  }

  /**
   * Starting with nothing pending, whatever the order and the repetitions, the prompt is the text
   * from the arrival of the last missing chunk on, and until then what it was before.
   */
  lemma {:induction false} SystemArrives(before: seq<byte>, text: seq<byte>, total: nat, order: seq<nat>)
    requires Covers(text, total) && InRange(order, total)
    ensures var s := SystemRun(Prompted(None, before), text, total, order);
            && s.prompt == (if Seen(order) == Below(total) then text else before)
            && (s.chunks.Some? ==> PartOf(s.chunks.value, text, total))
            && (Seen(order) != Below(total) ==> (if s.chunks == None then {} else s.chunks.value.Keys) == Seen(order))
            && (s.chunks.Some? ==> |s.chunks.value| < total)
    ensures order != [] && Seen(order) == Below(total) && Seen(order[..|order| - 1]) != Below(total) ==>
              SystemRun(Prompted(None, before), text, total, order).chunks == None
  {
    if order == [] {
      assert 0 in Below(total);
    } else {
      var init, i := order[..|order| - 1], order[|order| - 1];
      SystemArrives(before, text, total, init);
      SeenMore(order, total);
      OneMore(SystemRun(Prompted(None, before), text, total, init), text, total, i);
    }
  }

  lemma SeenMore(order: seq<nat>, total: nat)
    requires order != [] && InRange(order, total)
    ensures Seen(order) == Seen(order[..|order| - 1]) + {order[|order| - 1]}
    ensures Seen(order[..|order| - 1]) == Below(total) ==> Seen(order) == Below(total)
  {
    assert order == order[..|order| - 1] + [order[|order| - 1]];
  }

  lemma OneMore(s: Prompted, text: seq<byte>, total: nat, i: nat)
    requires Covers(text, total) && i < total
    requires s.chunks.Some? ==> PartOf(s.chunks.value, text, total)
    ensures var keys := (if s.chunks == None then {} else s.chunks.value.Keys) + {i};
            var t := SystemStep(s, ChunkFrame(SYSTEM, text, total, i));
            if keys == Below(total) then t == Prompted(None, text)
            else t.prompt == s.prompt && t.chunks.Some? && t.chunks.value.Keys == keys
                 && PartOf(t.chunks.value, text, total) && |t.chunks.value| < total
  {
    hide Piece, ChunkFrame;
    ChunkParts(SYSTEM, text, total, i);
    var from: Chunks := if s.chunks == None then map[] else s.chunks.value;
    var m := from[i := Piece(text, i)];
    assert PartOf(m, text, total);
    CompleteBySize(m, text, total);
    assert m.Keys == from.Keys + {i};
    if m.Keys == Below(total) {
      JoinedPieces(m, text, total, total);
      assert text[..|text|] == text;
    }
  }

  /** Frames too short for a chunk's header change nothing. */
  lemma ShortFramesIgnored(before: Option<Chunks>, s: Prompted, f: Frame)
    requires |f.payload| < 2
    ensures ResultStep(before, f) == Gathered(before, None) && SystemStep(s, f) == s
  {}

  // ---- results in any order ----

  /** What is pending after the chunks with these numbers. */
  function ResultPending(before: Option<Chunks>, text: seq<byte>, total: nat, order: seq<nat>): Option<Chunks>
    requires total < 0x100 && InRange(order, total)
  {
    if order == [] then before
    else ResultStep(ResultPending(before, text, total, order[..|order| - 1]),
                    ChunkFrame(RESULT, text, total, order[|order| - 1])).chunks
  }

  /** Chunk 0 comes first, or with nothing pending perhaps not at all, and never again. */
  predicate HeadFirst(before: Option<Chunks>, order: seq<nat>) {
    && order != [] && (order[0] == 0 || before == None)
    && forall k :: 1 <= k < |order| ==> order[k] != 0
  }

  lemma {:induction false} SamePending(before: Option<Chunks>, text: seq<byte>, total: nat, order: seq<nat>)
    requires total < 0x100 && InRange(order, total) && HeadFirst(before, order)
    ensures ResultPending(before, text, total, order) == SystemRun(Prompted(None, []), text, total, order).chunks
  {
    hide ResultStep, SystemStep, ChunkFrame;
    var init, i := order[..|order| - 1], order[|order| - 1];
    SameStep(ResultPending(before, text, total, init), SystemRun(Prompted(None, []), text, total, init).prompt, text, total, i);
    if init != [] {
      SamePending(before, text, total, init);
    }
  }

  /** The two collectors hold the same; one puts the text out, the other keeps it. */
  lemma SameStep(m: Option<Chunks>, prompt: seq<byte>, text: seq<byte>, total: nat, i: nat)
    requires i < total < 0x100
    ensures var r := ResultStep(m, ChunkFrame(RESULT, text, total, i));
            var s := SystemStep(Prompted(if i == 0 then None else m, prompt), ChunkFrame(SYSTEM, text, total, i));
            r.chunks == s.chunks && r.done == if s.chunks == None then Some(s.prompt) else None
  {
    hide Piece, ChunkFrame, Joined;
    ChunkParts(RESULT, text, total, i);
    ChunkParts(SYSTEM, text, total, i);
  }

  /** The chunks after the first may come in any order and repeatedly: the result comes out with the last missing one, and not before. */
  lemma ResultGathers(before: Option<Chunks>, text: seq<byte>, total: nat, order: seq<nat>)
    requires Covers(text, total) && InRange(order, total) && HeadFirst(before, order)
    requires Seen(order[..|order| - 1]) != Below(total)
    ensures ResultStep(ResultPending(before, text, total, order[..|order| - 1]),
                       ChunkFrame(RESULT, text, total, order[|order| - 1])).done ==
            if Seen(order) == Below(total) then Some(text) else None
  {
    hide Piece, ChunkFrame, Joined, SystemStep, ResultStep;
    var init, i := order[..|order| - 1], order[|order| - 1];
    var s := SystemRun(Prompted(None, []), text, total, init);
    if init != [] {
      SamePending(before, text, total, init);
    }
    SystemArrives([], text, total, init);
    SeenMore(order, total);
    OneMore(s, text, total, i);
    SameStep(ResultPending(before, text, total, init), s.prompt, text, total, i);
    assert i == 0 ==> init == [] && s.chunks == None;
  }
}
