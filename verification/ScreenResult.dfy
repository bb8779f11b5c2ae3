/** Scraping the C64 text screen into RESULT chunks; the screen does not change while it is scraped. */
module ScreenResult {
  import opened Wire
  import opened Frames
  import opened Reassembly
  import opened TxBuffer
  import opened Words

  const COLUMNS: nat := 40
  const ROWS: nat := 25
  const NEWLINE: byte := 0x0A
  const SPACE: byte := 0x20

  /** Screen memory: one screen code per cell, row after row. */
  type Screen = s: seq<byte> | |s| == 1000 witness seq(1000, _ => SPACE)

  /** Codes that count as visible: $01..$1F and $21..$3F. */
  predicate Mark(code: byte) {
    0 < code < 0x20 || 0x20 < code < 0x40
  }

  function ToAscii(code: byte): (a: byte)
    ensures SPACE <= a < 0x60 && (Mark(code) <==> a != SPACE)
  {
    if code == 0 then SPACE
    else if code < 0x20 then code + 0x40
    else if code < 0x40 then code
    else SPACE
  }

  function Cell(screen: Screen, line: nat, col: nat): byte
    requires line < ROWS && col < COLUMNS
  {
    screen[COLUMNS * line + col]
  }

  /** A row of the screen as text, all 40 columns of it. */
  function Row(screen: Screen, line: nat): (r: seq<byte>)
    requires line < ROWS
    ensures |r| == COLUMNS
    ensures forall c :: 0 <= c < COLUMNS ==> r[c] == ToAscii(Cell(screen, line, c))
  {
    seq(COLUMNS, c requires 0 <= c < COLUMNS => ToAscii(Cell(screen, line, c)))
  }

  function TrimRight(s: seq<byte>): seq<byte> {
    if s != [] && s[|s| - 1] == SPACE then TrimRight(s[..|s| - 1]) else s
  }

  function LineText(screen: Screen, line: nat): seq<byte>
    requires line < ROWS
  {
    TrimRight(Row(screen, line))
  }

  /** The lines from first to last, right-trimmed and joined by newlines. */
  function Text(screen: Screen, first: nat, last: nat): seq<byte>
    requires first <= last < ROWS
    decreases last - first
  {
    if first == last then LineText(screen, first)
    else LineText(screen, first) + [NEWLINE] + Text(screen, first + 1, last)
  }

  lemma {:induction false} TrimmedTo(s: seq<byte>, n: nat)
    requires n <= |s| && (n > 0 ==> s[n - 1] != SPACE)
    requires forall i :: n <= i < |s| ==> s[i] == SPACE
    ensures TrimRight(s) == s[..n]
    decreases |s|
  {
    if |s| > n {
      TrimmedTo(s[..|s| - 1], n);
      assert s[..|s| - 1][..n] == s[..n];
    } else {
      assert s[..n] == s;
    }
  }

  lemma {:induction false} TrimShorter(s: seq<byte>)
    ensures TrimRight(s) <= s
  {
    if s != [] && s[|s| - 1] == SPACE {
      TrimShorter(s[..|s| - 1]);
    }
  }

  // ---- what the screen shows ----

  /** The printable characters that have a screen code of their own: space to ? and @ to underscore. */
  predicate Printable(a: byte) {
    0x20 <= a < 0x60
  }

  /** Where the character generator of the C64 keeps a character: @, A to Z and the five after it first, then space to ?. */
  function ScreenCode(a: byte): (code: byte)
    requires Printable(a)
  {
    if a >= 0x40 then a - 0x40 else a
  }

  /** The 40 cells of a line in screen memory. */
  function Cells(screen: Screen, line: nat): (c: seq<byte>)
    requires line < ROWS
    ensures |c| == 40
  {
    screen[40 * line..40 * line + 40]
  }

  /** A text as it fills a line. */
  function Padded(text: seq<byte>): (p: seq<byte>)
    requires |text| <= 40
    ensures |p| == 40 && forall i :: 0 <= i < 40 ==> p[i] == if i < |text| then text[i] else SPACE
  {
    text + seq(40 - |text|, _ => SPACE)
  }

  /** A line of the screen shows this text and nothing after it. */
  predicate Shows(screen: Screen, line: nat, text: seq<byte>)
    requires line < ROWS
  {
    && |text| <= 40 && (text != [] ==> text[|text| - 1] != SPACE)
    && (forall i :: 0 <= i < |text| ==> Printable(text[i]))
    && (forall i :: 0 <= i < 40 ==> Cells(screen, line)[i] == ScreenCode(Padded(text)[i]))
  }

  const AT: byte := 0x40

  /** A code is read as the character it stands for; @, whose code is 0, and all other codes are read as spaces. */
  predicate ReadsAs(code: byte, a: byte) {
    if a == SPACE then forall b :: Printable(b) && b != SPACE && b != AT ==> ScreenCode(b) != code
    else Printable(a) && a != AT && ScreenCode(a) == code
  }

  lemma CellReads(screen: Screen, line: nat, col: nat)
    requires line < ROWS && col < 40
    ensures ReadsAs(Cells(screen, line)[col], Row(screen, line)[col])
  {}

  /** The text of a line, cell by cell: what its codes are read as, with blanks at its end left off. */
  lemma LineReads(screen: Screen, line: nat)
    requires line < ROWS
    ensures var t := LineText(screen, line);
            && |t| <= 40 && (t != [] ==> t[|t| - 1] != SPACE)
            && forall i :: 0 <= i < 40 ==> ReadsAs(Cells(screen, line)[i], Padded(t)[i])
  {
    hide ReadsAs, Row, Cells;
    TrimSplits(Row(screen, line));
    forall i | 0 <= i < 40 ensures ReadsAs(Cells(screen, line)[i], Padded(LineText(screen, line))[i]) {
      CellReads(screen, line, i);
    }
  }

  lemma {:induction false} TrimSplits(s: seq<byte>)
    ensures var t := TrimRight(s);
            && t <= s && (t != [] ==> t[|t| - 1] != SPACE)
            && forall i :: |t| <= i < |s| ==> s[i] == SPACE
  {
    if s != [] && s[|s| - 1] == SPACE {
      TrimSplits(s[..|s| - 1]);
    }
  }

  /** A line that shows a text is scraped as that text, exactly if there is no @ in it. */
  lemma LineShown(screen: Screen, line: nat, text: seq<byte>)
    requires line < ROWS && Shows(screen, line, text)
    ensures LineText(screen, line) == text <==> AT !in text
  {
    hide LineText, ReadsAs, ScreenCode, Cells;
    LineReads(screen, line);
    var t, cells := LineText(screen, line), Cells(screen, line);
    if AT in text {
      var k :| 0 <= k < |text| && text[k] == AT;
      NeverAt(cells[k], Padded(t)[k]);
      assert Padded(text)[k] == AT;
    } else {
      forall i | 0 <= i < 40 ensures Padded(t)[i] == Padded(text)[i] {
        OneReading(cells[i], Padded(t)[i], Padded(text)[i]);
      }
      SameText(t, text);
    }
  }

  lemma NeverAt(code: byte, a: byte)
    requires ReadsAs(code, a)
    ensures a != AT
  {}

  lemma OneReading(code: byte, a: byte, b: byte)
    requires ReadsAs(code, a) && Printable(b) && b != AT && ScreenCode(b) == code
    ensures a == b
  {}

  /** Two texts without trailing spaces that fill a line alike are the same. */
  lemma SameText(a: seq<byte>, b: seq<byte>)
    requires |a| <= 40 && |b| <= 40 && Padded(a) == Padded(b)
    requires (a != [] ==> a[|a| - 1] != SPACE) && (b != [] ==> b[|b| - 1] != SPACE)
    ensures a == b
  {
    TrimmedTo(Padded(a), |a|);
    TrimmedTo(Padded(b), |b|);
    assert Padded(a)[..|a|] == a && Padded(b)[..|b|] == b;
  }

  /** Lines joined by newlines. */
  function Lines(texts: seq<seq<byte>>): seq<byte> {
    if texts == [] then []
    else if |texts| == 1 then texts[0]
    else Lines(texts[..|texts| - 1]) + [NEWLINE] + texts[|texts| - 1]
  }

  predicate AllShow(screen: Screen, first: nat, texts: seq<seq<byte>>)
    requires first + |texts| <= ROWS
  {
    forall i :: 0 <= i < |texts| ==> Shows(screen, first + i, texts[i]) && AT !in texts[i]
  }

  lemma {:induction false} TextSnoc(screen: Screen, first: nat, last: nat)
    requires first < last < ROWS
    ensures Text(screen, first, last) == Text(screen, first, last - 1) + [NEWLINE] + LineText(screen, last)
    decreases last - first
  {
    hide LineText;
    if first + 1 < last {
      TextSnoc(screen, first + 1, last);
    }
  }

  /** A part of the screen that shows these lines is scraped as these lines. */
  lemma {:induction false} TextShown(screen: Screen, first: nat, texts: seq<seq<byte>>)
    requires texts != [] && first + |texts| <= ROWS && AllShow(screen, first, texts)
    ensures Text(screen, first, first + |texts| - 1) == Lines(texts)
    decreases |texts|
  {
    hide LineText, Shows;
    var last := |texts| - 1;
    LineShown(screen, first + last, texts[last]);
    if last > 0 {
      assert AllShow(screen, first, texts[..last]);
      TextShown(screen, first, texts[..last]);
      TextSnoc(screen, first, first + last);
    }
  }

  /** A text is no longer than the rows it comes from with a newline after each but the last. */
  lemma {:induction false} TextBounds(screen: Screen, first: nat, last: nat)
    requires first <= last < ROWS
    ensures |Text(screen, first, last)| <= 41 * (last - first) + 40
    ensures SevenBit(Text(screen, first, last))
    decreases last - first
  {
    TrimShorter(Row(screen, first));
    if first < last {
      TextBounds(screen, first + 1, last);
    }
  }

  /** The visible length of one line. */
  method LineLen(screen: Screen, line: nat) returns (n: byte)
    requires line < ROWS
    ensures n <= COLUMNS && LineText(screen, line) == Row(screen, line)[..n]
    ensures n == |LineText(screen, line)|
  {
    n := 0;
    for y := 0 to COLUMNS
      invariant n <= y
      invariant n > 0 ==> Mark(Cell(screen, line, n - 1))
      invariant forall c :: n <= c < y ==> !Mark(Cell(screen, line, c))
    {
      if Mark(Cell(screen, line, y)) {
        n := y + 1;
      }
    }
    TrimmedTo(Row(screen, line), n);
  }

  /** The last line with anything on it, or the cursor's if that is further down. */
  method FindScreenEndLine(screen: Screen, cursorRow: nat) returns (line: nat)
    requires cursorRow < ROWS
    ensures cursorRow <= line < ROWS
    ensures line > cursorRow ==> LineText(screen, line) != []
    ensures forall l :: line < l < ROWS ==> LineText(screen, l) == []
  {
    var x: int := ROWS - 1;
    while x >= 0
      invariant cursorRow <= x < ROWS
      invariant forall l :: x < l < ROWS ==> LineText(screen, l) == []
    {
      var n := LineLen(screen, x);
      if n != 0 || x == cursorRow {
        return x;
      }
      x := x - 1;
    }
    line := cursorRow;
  }

  /** Number of chunks: one more than the full ones. */
  function ChunkCount(text: seq<byte>): nat {
    |text| / CHUNK_MAX + 1
  }

  /** A place the scraper can stop at: within a line, after its newline, or past the last line. */
  predicate InText(screen: Screen, line: nat, col: nat, last: nat)
    requires last < ROWS
  {
    && line <= last + 1
    && (line <= last ==> col <= |LineText(screen, line)| + (if line < last then 1 else 0) && col <= |Text(screen, line, last)|)
  }

  function RestAt(screen: Screen, line: nat, col: nat, last: nat): seq<byte>
    requires last < ROWS && InText(screen, line, col, last)
  {
    if line > last then [] else Text(screen, line, last)[col..]
  }

  lemma StartOfLine(screen: Screen, line: nat, last: nat)
    requires line <= last + 1 <= ROWS
    ensures InText(screen, line, 0, last)
    ensures RestAt(screen, line, 0, last) == if line > last then [] else Text(screen, line, last)
  {}

  lemma PastTheEnd(screen: Screen, line: nat, col: nat, last: nat)
    requires last < ROWS && line > last && InText(screen, line, col, last)
    ensures RestAt(screen, line, col, last) == []
  {}

  class Scraper {
    const screen: Screen
    const tx: TxBuf
    var resultStartLine: nat
    var ssrEndLine: nat
    var resultLine: nat
    var resultCol: nat
    var resultChunk: byte
    var resultTotalChunks: byte
    var resultPending: bool

    ghost predicate Valid()
      reads this, tx
    {
      && tx.Valid()
      && resultStartLine <= ssrEndLine < ROWS
      && resultLine <= ssrEndLine + 1
      && InText(screen, resultLine, resultCol, ssrEndLine)
    }

    /** The text not yet put into a chunk. */
    ghost function Rest(): seq<byte>
      requires Valid()
      reads this, tx
    {
      RestAt(screen, resultLine, resultCol, ssrEndLine)
    }

    constructor (screen: Screen)
      ensures Valid() && fresh(tx) && fresh(tx.buf) && this.screen == screen
    {
      this.screen := screen;
      tx := new TxBuf();
      resultStartLine, ssrEndLine, resultLine, resultCol := 0, 0, 0, 0;
      resultChunk, resultTotalChunks, resultPending := 0, 0, false;
    }

    /** Fixes the range, counts its chunks and starts at its first character. */
    method PrepareResultRangeChunks(first: nat, last: nat)
      requires tx.Valid() && first <= last < ROWS
      modifies this
      ensures Valid() && resultStartLine == first && ssrEndLine == last
      ensures resultPending && resultChunk == 0 && Rest() == Text(screen, first, last)
      ensures resultTotalChunks == ChunkCount(Text(screen, first, last))
    {
      hide LineText;
      resultStartLine, ssrEndLine := first, last;
      var length := TotalLength(screen, first, last);
      TextBounds(screen, first, last);
      resultChunk, resultCol := 0, 0;
      resultTotalChunks := CountChunks(length);
      resultLine := resultStartLine;
      resultPending := true;
    }

    /** Payload: chunk number, number of chunks, and text from where the previous chunk stopped. */
    method BuildNextResultChunk()
      requires Valid()
      modifies `resultLine, `resultCol, `resultChunk, `resultPending
      modifies tx.buf, tx`sendPos, tx`sendTotal, tx`frameChk
      ensures Valid() && tx.sendPos == 0
      ensures var rest, n := old(Rest()), Min(CHUNK_MAX, |old(Rest())|);
              && tx.Holds(Frame(RESULT, [old(resultChunk), resultTotalChunks] + rest[..n]))
              && Rest() == rest[n..]
      ensures resultChunk == (old(resultChunk) + 1) % 0x100
      ensures resultPending == (old(resultPending) && resultChunk != resultTotalChunks)
    {
      hide LineText, Text, InText, RestAt;
      ghost var rest := Rest();
      tx.buf[3], tx.buf[4] := resultChunk, resultTotalChunks;
      var y := FillChunk(rest);
      assert tx.buf[3..5 + y] == [resultChunk, resultTotalChunks] + rest[..y];
      tx.SealChunk(RESULT, y + 2);
      resultChunk := (resultChunk + 1) % 0x100;
      if resultChunk == resultTotalChunks {
        resultPending := false;
      }
    }

    method FillChunk(ghost rest: seq<byte>) returns (y: nat)
      requires Valid() && rest == Rest()
      modifies `resultLine, `resultCol, tx.buf
      ensures Valid() && y == Min(CHUNK_MAX, |rest|) && Rest() == rest[y..]
      ensures tx.buf[3] == old(tx.buf[3]) && tx.buf[4] == old(tx.buf[4])
      ensures forall j :: 0 <= j < y ==> tx.buf[5 + j] == rest[j]
    {
      hide LineText, Text, InText, RestAt;
      y := 0;
      while resultLine <= ssrEndLine
        invariant Valid() && y <= |rest| && y < CHUNK_MAX && Rest() == rest[y..]
        invariant tx.buf[3] == old(tx.buf[3]) && tx.buf[4] == old(tx.buf[4])
        invariant forall j :: 0 <= j < y ==> tx.buf[5 + j] == rest[j]
        decreases ROWS - resultLine
      {
        y := CopyLine(y, rest);
        if y == CHUNK_MAX {
          return;
        }
        StartOfLine(screen, resultLine + 1, ssrEndLine);
        resultLine, resultCol := resultLine + 1, 0;
      }
      PastTheEnd(screen, resultLine, resultCol, ssrEndLine);
    }

    /** Copies from the current line until the chunk is full or the line and its newline are used up. */
    method CopyLine(from: nat, ghost rest: seq<byte>) returns (y: nat)
      requires Valid() && resultLine <= ssrEndLine
      requires from <= |rest| && from < CHUNK_MAX && Rest() == rest[from..]
      requires forall j :: 0 <= j < from ==> tx.buf[5 + j] == rest[j]
      modifies `resultCol, tx.buf
      ensures Valid() && from <= y <= |rest| && y <= CHUNK_MAX && Rest() == rest[y..]
      ensures y < CHUNK_MAX ==> rest[y..] == if resultLine == ssrEndLine then [] else Text(screen, resultLine + 1, ssrEndLine)
      ensures forall j :: 0 <= j < y ==> tx.buf[5 + j] == rest[j]
      ensures forall j :: 0 <= j < 5 ==> tx.buf[j] == old(tx.buf[j])
    {
      hide LineText, Text, Row, InText, RestAt, ToAscii;
      var n := LineLen(screen, resultLine);
      y := from;
      while y != CHUNK_MAX
        invariant Valid() && from <= y <= |rest| && y <= CHUNK_MAX && Rest() == rest[y..]
        invariant forall j :: 0 <= j < y ==> tx.buf[5 + j] == rest[j]
        invariant forall j :: 0 <= j < 5 ==> tx.buf[j] == old(tx.buf[j])
        decreases CHUNK_MAX - y
      {
        NextByte(screen, resultLine, resultCol, ssrEndLine);
        assert rest[y..] != [] ==> rest[y..][1..] == rest[y + 1..];
        if resultCol < n {
          tx.buf[5 + y] := ToAscii(Cell(screen, resultLine, resultCol));
        } else if resultCol == n && resultLine != ssrEndLine {
          tx.buf[5 + y] := NEWLINE;
        } else {
          break;
        }
        y, resultCol := y + 1, resultCol + 1;
      }
    }
  }

  /** What the scraper emits at a place, and where that leaves it. */
  lemma NextByte(screen: Screen, line: nat, col: nat, last: nat)
    requires line <= last < ROWS && InText(screen, line, col, last)
    ensures var n, rest := |LineText(screen, line)|, RestAt(screen, line, col, last);
            if col < n || (col == n && line != last) then
              && rest != [] && n <= COLUMNS
              && rest[0] == (if col < n then ToAscii(Cell(screen, line, col)) else NEWLINE)
              && InText(screen, line, col + 1, last)
              && RestAt(screen, line, col + 1, last) == rest[1..]
            else rest == if line == last then [] else Text(screen, line + 1, last)
  {
    hide LineText, Text, ToAscii;
    TextAt(screen, line, last, col);
  }

  /** What is found at and after a place in the text. */
  lemma TextAt(screen: Screen, first: nat, last: nat, col: nat)
    requires first <= last < ROWS
    ensures var n, text := |LineText(screen, first)|, Text(screen, first, last);
            && n <= COLUMNS && n <= |text|
            && (col < n ==> text[col] == ToAscii(Cell(screen, first, col)))
            && (first == last ==> |text| == n)
            && (first < last ==> |text| > n && text[n] == NEWLINE && text[n + 1..] == Text(screen, first + 1, last))
  {
    TrimShorter(Row(screen, first));
    if first < last {
      var a, b := LineText(screen, first) + [NEWLINE], Text(screen, first + 1, last);
      assert (a + b)[|a|..] == b;
    }
  }

  lemma TextLength(screen: Screen, first: nat, last: nat)
    requires first <= last < ROWS
    ensures |Text(screen, first, last)| ==
            |LineText(screen, first)| + if first == last then 0 else 1 + |Text(screen, first + 1, last)|
  {}

  /** The length of the whole text, in two bytes. */
  method TotalLength(screen: Screen, first: nat, last: nat) returns (w: Word)
    requires first <= last < ROWS
    ensures w.Value() == |Text(screen, first, last)|
  {
    hide AddByte, LineText, Text, Row, Word.Value;
    TextBounds(screen, first, last);
    ZeroValue();
    w := ZERO;
    var line := first;
    while true
      invariant first <= line <= last
      invariant w.Value() + |Text(screen, line, last)| == |Text(screen, first, last)| <= 1024
      decreases last - line
    {
      var n := LineLen(screen, line);
      TextLength(screen, line, last);
      ghost var before := w.Value();
      w := AddByte(w, n);
      assert w.Value() == before + n;
      if line == last {
        break;
      }
      w := AddByte(w, 1);
      line := line + 1;
    }
  }

  /** Repeated subtraction: one chunk for every full 120 bytes and one more. */
  method CountChunks(length: Word) returns (total: byte)
    requires length.Value() <= 1024
    ensures total == length.Value() / CHUNK_MAX + 1
  {
    hide Subtract;
    total := 0;
    if length == ZERO {
      return 1;
    }
    var w := length;
    while true
      invariant w.Value() + CHUNK_MAX * total == length.Value()
      decreases w.Value()
    {
      total := total + 1;
      if w.hi == 0 && w.lo < CHUNK_MAX {
        break;
      }
      w := Subtract(w, Word(CHUNK_MAX, 0));
    }
  }

  // ---- a whole scrape ----

  /** At most nine chunks, always enough for the text, and the last one never full. */
  lemma ChunksCover(screen: Screen, first: nat, last: nat)
    requires first <= last < ROWS
    ensures var text := Text(screen, first, last);
            var total := ChunkCount(text);
            && Covers(text, total) && total <= 9
            && |Piece(text, total - 1)| == |text| % CHUNK_MAX
  {
    TextBounds(screen, first, last);
  }

  /** The frames a scrape consists of. */
  function Scraped(screen: Screen, first: nat, last: nat): seq<Frame>
    requires first <= last < ROWS
  {
    ChunksCover(screen, first, last);
    var text := Text(screen, first, last);
    ChunkFrames(RESULT, text, ChunkCount(text))
  }

  /** A chunk is the front of what is left. */
  lemma PieceOfRest(text: seq<byte>, k: nat)
    ensures var rest := text[Min(CHUNK_MAX * k, |text|)..];
            var n := Min(CHUNK_MAX, |rest|);
            rest[..n] == Piece(text, k) && rest[n..] == text[Min(CHUNK_MAX * (k + 1), |text|)..]
  {}

  /** Where the scraper stands after k chunks of a text. */
  ghost predicate Reached(s: Scraper, text: seq<byte>, total: nat, k: nat)
    reads s, s.tx
  {
    && s.Valid() && k <= total < 0x100
    && s.resultTotalChunks == total && s.resultChunk == k && s.resultPending == (k < total)
    && s.Rest() == text[Min(CHUNK_MAX * k, |text|)..]
  }

  method Begin(s: Scraper, first: nat, last: nat) returns (ghost total: nat)
    requires s.tx.Valid() && first <= last < ROWS
    modifies s
    ensures total == ChunkCount(Text(s.screen, first, last)) > 0
    ensures Reached(s, Text(s.screen, first, last), total, 0)
  {
    hide Text, Scraper.Rest;
    s.PrepareResultRangeChunks(first, last);
    ChunksCover(s.screen, first, last);
    total := ChunkCount(Text(s.screen, first, last));
  }

  /** Builds one chunk and reads the frame off the transmit buffer. */
  method NextChunk(s: Scraper, ghost text: seq<byte>, ghost total: nat, ghost k: nat) returns (f: Frame)
    requires Reached(s, text, total, k) && k < total
    modifies s`resultLine, s`resultCol, s`resultChunk, s`resultPending, s.tx, s.tx.buf
    ensures Reached(s, text, total, k + 1) && f == ChunkFrame(RESULT, text, total, k)
  {
    hide Piece, Scraper.Rest, Body, Min, InText;
    PieceOfRest(text, k);
    ghost var g := ChunkFrame(RESULT, text, total, k);
    s.BuildNextResultChunk();
    HeldParts(g, s.tx.buf[..], s.tx.frameChk);
    assert s.tx.buf[..][3..3 + |g.payload|] == s.tx.buf[3..3 + |g.payload|];
    f := Frame(s.tx.buf[1], s.tx.buf[3..3 + s.tx.buf[2]]);
  }

  /** Builds chunk after chunk, as long as the scraper says there is one, and collects the frames built. */
  method ScrapeRange(s: Scraper, first: nat, last: nat) returns (frames: seq<Frame>)
    requires s.tx.Valid() && first <= last < ROWS
    modifies s, s.tx, s.tx.buf
    ensures s.Valid() && frames == Scraped(s.screen, first, last)
  {
    hide Text, Piece, ChunkFrame, ChunkCount, Scraper.Rest, Scraper.Valid;
    ghost var text := Text(s.screen, first, last);
    ghost var total := Begin(s, first, last);
    ghost var k := 0;
    frames := [];
    while s.resultPending
      invariant Reached(s, text, total, k) && |frames| == k
      invariant forall i :: 0 <= i < k ==> frames[i] == ChunkFrame(RESULT, text, total, i)
      decreases total - k
    {
      var f := NextChunk(s, text, total, k);
      frames, k := frames + [f], k + 1;
    }
  }

  /** The bridge gets back exactly the text of the screen, whatever an earlier result left behind. */
  lemma TextArrives(screen: Screen, first: nat, last: nat, before: Option<Chunks>)
    requires first <= last < ROWS
    ensures var text := Text(screen, first, last);
            ResultRun(before, Scraped(screen, first, last)) == (None, Nones(|text| / CHUNK_MAX) + [Some(text)])
  {
    ChunksCover(screen, first, last);
    ResultArrives(before, Text(screen, first, last), ChunkCount(Text(screen, first, last)));
  }

  /** So what the screen shows is what the bridge gets. */
  lemma ShownTextArrives(screen: Screen, first: nat, texts: seq<seq<byte>>, before: Option<Chunks>)
    requires texts != [] && first + |texts| <= ROWS && AllShow(screen, first, texts)
    ensures ResultRun(before, Scraped(screen, first, first + |texts| - 1)) ==
            (None, Nones(|Lines(texts)| / CHUNK_MAX) + [Some(Lines(texts))])
  {
    hide Text, Lines;
    TextShown(screen, first, texts);
    TextArrives(screen, first, first + |texts| - 1, before);
  }
}
