/** The system prompt kept on the C64, cut into SYSTEM chunks with 16-bit offset arithmetic. */
module SoulPrompt {
  import opened Wire
  import opened Frames
  import opened Reassembly
  import opened TxBuffer
  import opened Words

  const SOUL_BASE: nat := 0x9800
  const COLD_CODE_BASE: nat := 0xA000

  /** Prompt bytes in PETSCII: at least one, and no further than the end of the address space. */
  predicate Fits(soul: seq<byte>) {
    1 <= |soul| <= 0x10000 - SOUL_BASE
  }

  /** PETSCII letters become ASCII letters; everything else stays. */
  function ToAscii(c: byte): byte {
    if 0xC1 <= c < 0xDB then c - 0x80
    else if 0x41 <= c < 0x5B then c + 0x20
    else c
  }

  function Converted(soul: seq<byte>): (t: seq<byte>)
    ensures |t| == |soul|
    ensures forall i :: 0 <= i < |soul| ==> t[i] == ToAscii(soul[i])
  {
    seq(|soul|, i requires 0 <= i < |soul| => ToAscii(soul[i]))
  }

  /** How the C64 stores an ASCII character in its mixed-case character set: small letters first, capitals from $C1. */
  function Petscii(a: byte): byte
    requires a < 0x80
  {
    if 'a' as int <= a <= 'z' as int then 0x41 + (a - 'a' as int)
    else if 'A' as int <= a <= 'Z' as int then 0xC1 + (a - 'A' as int)
    else a
  }

  function Stored(text: seq<byte>): (soul: seq<byte>)
    requires SevenBit(text)
    ensures |soul| == |text| && forall i :: 0 <= i < |soul| ==> soul[i] == Petscii(text[i])
  {
    seq(|text|, i requires 0 <= i < |text| => Petscii(text[i]))
  }

  /** A prompt written in ASCII and stored in the C64's characters is converted back to what was written. */
  lemma WrittenIsConverted(text: seq<byte>)
    requires SevenBit(text)
    ensures Converted(Stored(text)) == text
  {}

  /** And every byte the conversion changes is a letter's, and becomes that letter. */
  lemma OnlyLettersChange(soul: seq<byte>, i: nat)
    requires i < |soul|
    ensures var c := Converted(soul)[i]; c != soul[i] ==> c < 0x80 && Petscii(c) == soul[i]
  {}

  /** Computed when the program is assembled. */
  function PromptChunks(soul: seq<byte>): nat {
    (|soul| + CHUNK_MAX - 1) / CHUNK_MAX
  }

  lemma ChunksCover(soul: seq<byte>)
    requires Fits(soul)
    ensures Covers(Converted(soul), PromptChunks(soul))
    ensures CHUNK_MAX * (PromptChunks(soul) - 1) < |soul|
  {}

  /** The offset of a chunk, by repeated addition. */
  method ChunkOffset(chunk: byte) returns (off: Word)
    requires CHUNK_MAX * chunk < 0x10000
    ensures off.Value() == CHUNK_MAX * chunk
  {
    hide AddByte, Word.Value;
    ZeroValue();
    off := ZERO;
    var x := chunk;
    while x != 0
      invariant off.Value() + CHUNK_MAX * x == CHUNK_MAX * chunk
      decreases x
    {
      off := AddByte(off, CHUNK_MAX);
      x := x - 1;
    }
  }

  /** The chunk takes 120 characters or what remains. */
  method ChunkLength(length: Word, off: Word) returns (n: byte)
    requires off.Value() <= length.Value()
    ensures n == Min(CHUNK_MAX, length.Value() - off.Value())
  {
    hide Subtract;
    var remain := Subtract(length, off);
    n := if remain.hi == 0 && remain.lo < CHUNK_MAX then remain.lo else CHUNK_MAX;
  }

  class Prompter {
    const soul: seq<byte>
    const tx: TxBuf
    var sspChunk: byte
    var promptPending: bool

    ghost predicate Valid()
      reads this, tx
    {
      tx.Valid() && Fits(soul) && sspChunk < PromptChunks(soul)
    }

    constructor (soul: seq<byte>)
      requires Fits(soul)
      ensures Valid() && fresh(tx) && fresh(tx.buf) && this.soul == soul && sspChunk == 0 && promptPending
    {
      this.soul := soul;
      tx := new TxBuf();
      sspChunk, promptPending := 0, true;
    }

    method BuildNextPromptChunk()
      requires Valid()
      modifies `sspChunk, `promptPending
      modifies tx.buf, tx`sendPos, tx`sendTotal, tx`frameChk
      ensures Valid() && tx.sendPos == 0
      ensures Covers(Converted(soul), PromptChunks(soul))
      ensures tx.Holds(ChunkFrame(SYSTEM, Converted(soul), PromptChunks(soul), old(sspChunk)))
      ensures var last := old(sspChunk) + 1 == PromptChunks(soul);
              && sspChunk == (if last then 0 else old(sspChunk) + 1)
              && promptPending == (old(promptPending) && !last)
    {
      hide Converted, PromptChunks;
      ChunksCover(soul);
      ghost var text, total := Converted(soul), PromptChunks(soul);
      var off := ChunkOffset(sspChunk);
      var n := ChunkLength(LengthWord(soul), off);
      tx.buf[3], tx.buf[4] := sspChunk, PromptChunks(soul);
      ghost var piece := text[off.Value()..off.Value() + n];
      CopyText(off, n, piece);
      PieceAt(text, total, sspChunk, off.Value(), n, piece, tx.buf[..]);
      assert tx.buf[..][3..5 + n] == tx.buf[3..5 + n];
      tx.SealChunk(SYSTEM, n + 2);
      sspChunk := sspChunk + 1;
      if sspChunk == PromptChunks(soul) {
        promptPending, sspChunk := false, 0;
      }
    }

    /** The copy loop; its read pointer is a 16-bit address that is incremented byte by byte. */
    method CopyText(off: Word, n: byte, ghost piece: seq<byte>)
      requires tx.Valid() && Fits(soul) && n <= CHUNK_MAX && off.Value() + n <= |soul| && off.Value() < |soul|
      requires piece == Converted(soul)[off.Value()..off.Value() + n]
      modifies tx.buf
      ensures forall j :: 0 <= j < 5 ==> tx.buf[j] == old(tx.buf[j])
      ensures forall j :: 0 <= j < n ==> tx.buf[5 + j] == piece[j]
    {
      hide AddByte, Add, Word.Value, ToAscii;
      var rd := Add(BaseWord(), off);
      assert rd.Value() == SOUL_BASE + off.Value();
      for y := 0 to n
        invariant y < n ==> rd.Value() == SOUL_BASE + off.Value() + y
        invariant forall j :: 0 <= j < 5 ==> tx.buf[j] == old(tx.buf[j])
        invariant forall j :: 0 <= j < y ==> tx.buf[5 + j] == piece[j]
      {
        assert piece[y] == Converted(soul)[off.Value() + y];
        tx.buf[5 + y] := ToAscii(Peek(rd));
        rd := AddByte(rd, 1);
      }
    }

    /** Memory at an address inside the prompt. */
    function Peek(address: Word): byte
      requires SOUL_BASE <= address.Value() < SOUL_BASE + |soul|
    {
      soul[address.Value() - SOUL_BASE]
    }
  }

  function BaseWord(): (w: Word)
    ensures w.Value() == SOUL_BASE
  {
    Word(SOUL_BASE % 0x100, SOUL_BASE / 0x100)
  }

  function LengthWord(soul: seq<byte>): (w: Word)
    requires Fits(soul)
    ensures w.Value() == |soul|
  {
    Word(|soul| % 0x100, |soul| / 0x100)
  }

  /** Header and copied text are the payload of the chunk's frame. */
  lemma PieceAt(text: seq<byte>, total: nat, i: nat, off: nat, n: nat, piece: seq<byte>, buf: seq<byte>)
    requires i < total < 0x100 && off == CHUNK_MAX * i <= |text| && n == Min(CHUNK_MAX, |text| - off)
    requires 5 + n <= |buf| && buf[3] == i && buf[4] == total
    requires piece == text[off..off + n] && forall j :: 0 <= j < n ==> buf[5 + j] == piece[j]
    ensures buf[3..5 + n] == ChunkFrame(SYSTEM, text, total, i).payload
  {
    assert Piece(text, i) == piece;
    assert buf[3..5 + n] == [buf[3], buf[4]] + buf[5..5 + n];
    assert buf[5..5 + n] == piece;
  }

  // ---- the whole prompt ----

  function SoulFrames(soul: seq<byte>): seq<Frame>
    requires Fits(soul)
  {
    ChunksCover(soul);
    ChunkFrames(SYSTEM, Converted(soul), PromptChunks(soul))
  }

  /** Builds chunk after chunk while any is pending and collects the frames from the transmit buffer. */
  method SendPrompt(p: Prompter) returns (frames: seq<Frame>)
    requires p.Valid() && p.promptPending && p.sspChunk == 0
    modifies p, p.tx, p.tx.buf
    ensures p.Valid() && !p.promptPending && p.sspChunk == 0
    ensures frames == SoulFrames(p.soul)
  {
    hide ChunkFrame, PromptChunks, Converted, Body;
    ChunksCover(p.soul);
    ghost var text, total := Converted(p.soul), PromptChunks(p.soul);
    frames := [];
    while p.promptPending
      invariant p.Valid() && |frames| <= total && p.promptPending == (|frames| < total)
      invariant p.sspChunk == if |frames| < total then |frames| else 0
      invariant forall i :: 0 <= i < |frames| ==> frames[i] == ChunkFrame(SYSTEM, text, total, i)
      decreases total - |frames|
    {
      var f := NextChunk(p);
      frames := frames + [f];
    }
  }

  /** Builds one chunk and reads the frame off the transmit buffer. */
  method NextChunk(p: Prompter) returns (f: Frame)
    requires p.Valid()
    modifies p`sspChunk, p`promptPending, p.tx, p.tx.buf
    ensures p.Valid() && Covers(Converted(p.soul), PromptChunks(p.soul))
    ensures f == ChunkFrame(SYSTEM, Converted(p.soul), PromptChunks(p.soul), old(p.sspChunk))
    ensures var last := old(p.sspChunk) + 1 == PromptChunks(p.soul);
            && p.sspChunk == (if last then 0 else old(p.sspChunk) + 1)
            && p.promptPending == (old(p.promptPending) && !last)
  {
    hide Body, PromptChunks, Converted, Piece;
    ChunksCover(p.soul);
    ghost var g := ChunkFrame(SYSTEM, Converted(p.soul), PromptChunks(p.soul), p.sspChunk);
    p.BuildNextPromptChunk();
    HeldParts(g, p.tx.buf[..], p.tx.frameChk);
    assert p.tx.buf[..][3..3 + |g.payload|] == p.tx.buf[3..3 + |g.payload|];
    f := Frame(p.tx.buf[1], p.tx.buf[3..3 + p.tx.buf[2]]);
  }

  /** Whatever the order and the repetitions, the bridge has the whole prompt once every chunk has arrived, and not before. */
  lemma SoulArrives(soul: seq<byte>, before: seq<byte>, order: seq<nat>)
    requires Fits(soul) && PromptChunks(soul) < 0x100 && InRange(order, PromptChunks(soul))
    ensures SystemRun(Prompted(None, before), Converted(soul), PromptChunks(soul), order).prompt ==
            if Seen(order) == Below(PromptChunks(soul)) then Converted(soul) else before
  {
    ChunksCover(soul);
    SystemArrives(before, Converted(soul), PromptChunks(soul), order);
  }
}
