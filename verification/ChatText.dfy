/** Chat text on its way to the C64: conversion to the line's alphabet, and the frames built from it. */
module ChatText {
  import opened Wire
  import opened Frames

  /** A Unicode code point. */
  type Rune = nat

  const TAB: Rune := 0x09
  const LF: Rune := 0x0A
  const CR: Rune := 0x0D

  /** The replacement table, one code point at a time; CR LF together are handled in Replaced. */
  function Replacement(r: Rune): Option<seq<Rune>> {
    match r
    case 0x0D => Some([LF])
    case 0x2019 => Some([0x27])
    case 0x2018 => Some([0x27])
    case 0x201C => Some([0x22])
    case 0x201D => Some([0x22])
    case 0x2013 => Some([0x2D])
    case 0x2014 => Some([0x2D])
    case 0x2026 => Some([0x2E, 0x2E, 0x2E])
    case 0x00A0 => Some([0x20])
    case 0x00E4 => Some([0x61, 0x65])
    case 0x00F6 => Some([0x6F, 0x65])
    case 0x00FC => Some([0x75, 0x65])
    case 0x00C4 => Some([0x41, 0x65])
    case 0x00D6 => Some([0x4F, 0x65])
    case 0x00DC => Some([0x55, 0x65])
    case 0x00DF => Some([0x73, 0x73])
    case _ => None
  }

  function Replaced(s: seq<Rune>): seq<Rune> {
    if s == [] then []
    else if s[0] == CR && |s| > 1 && s[1] == LF then [LF] + Replaced(s[2..])
    else (if Replacement(s[0]).Some? then Replacement(s[0]).value else [s[0]]) + Replaced(s[1..])
  }

  /** What the bridge lets through as is. */
  predicate Plain(r: Rune) {
    r == LF || r == TAB || 0x20 <= r <= 0x7E
  }

  function AsciiRune(r: Rune): (a: byte)
    ensures Plain(a) && (a == r <==> Plain(r))
  {
    if Plain(r) then r else 0x3F
  }

  function Ascii(s: seq<Rune>): (a: seq<byte>)
    ensures forall i :: 0 <= i < |a| ==> Plain(a[i])
  {
    var r := Replaced(s);
    seq(|r|, i requires 0 <= i < |r| => AsciiRune(r[i]))
  }

  method ToASCII(s: seq<Rune>) returns (out: seq<byte>)
    ensures out == Ascii(s)
  {
    var r := Replaced(s);
    out := [];
    for i := 0 to |r|
      invariant |out| == i && forall j :: 0 <= j < i ==> out[j] == AsciiRune(r[j])
    {
      if r[i] == LF || r[i] == TAB {
        out := out + [r[i]];
      } else if 0x20 <= r[i] <= 0x7E {
        out := out + [r[i]];
      } else {
        out := out + [0x3F];
      }
    }
  }

  lemma {:induction false} PlainStays(s: seq<Rune>)
    requires forall i :: 0 <= i < |s| ==> Plain(s[i])
    ensures Replaced(s) == s
  {
    if s != [] {
      assert Plain(s[0]);
      PlainStays(s[1..]);
    }
  }

  /** Exactly the texts already in the alphabet pass unchanged; so converting twice changes nothing. */
  lemma AsciiFixesPlain(s: seq<Rune>)
    ensures Ascii(s) == s <==> forall i :: 0 <= i < |s| ==> Plain(s[i])
    ensures Ascii(Ascii(s)) == Ascii(s)
  {
    PlainStays(Ascii(s));
    if forall i :: 0 <= i < |s| ==> Plain(s[i]) {
      PlainStays(s);
    }
  }

  // ---- what the conversion does to the rest ----

  function Spelling(r: Rune): seq<Rune> {
    if Replacement(r).Some? then Replacement(r).value else [r]
  }

  predicate LineEnd(s: seq<Rune>) {
    |s| > 1 && s[0] == CR && s[1] == LF
  }

  lemma ReplacedFront(s: seq<Rune>)
    requires s != []
    ensures Replaced(s) == if LineEnd(s) then [LF] + Replaced(s[2..]) else Spelling(s[0]) + Replaced(s[1..])
  {
    hide Replacement;
  }

  lemma {:induction false} ReplacedConcat(s: seq<Rune>, t: seq<Rune>)
    requires !(s != [] && s[|s| - 1] == CR && t != [] && t[0] == LF)
    ensures Replaced(s + t) == Replaced(s) + Replaced(t)
    decreases |s|
  {
    hide Replaced, Spelling;
    if s == [] {
      assert s + t == t;
      NothingReplaced(Replaced(t));
    } else {
      var st := s + t;
      assert st[0] == s[0] && (|s| > 1 ==> st[1] == s[1]) && (LineEnd(st) <==> LineEnd(s));
      ReplacedFront(s);
      ReplacedFront(st);
      if LineEnd(s) {
        assert st[2..] == s[2..] + t;
        ReplacedConcat(s[2..], t);
        Joined([LF], Replaced(s[2..]), Replaced(t));
      } else {
        assert st[1..] == s[1..] + t;
        ReplacedConcat(s[1..], t);
        Joined(Spelling(s[0]), Replaced(s[1..]), Replaced(t));
      }
    }
  }

  lemma Joined(a: seq<Rune>, b: seq<Rune>, c: seq<Rune>)
    ensures a + (b + c) == (a + b) + c
  {}

  lemma NothingReplaced(t: seq<Rune>)
    ensures Replaced([]) + t == t
  {}

  /** Converting piece by piece is the same, but in the middle of a CR LF. */
  lemma AsciiConcat(s: seq<Rune>, t: seq<Rune>)
    requires !(s != [] && s[|s| - 1] == CR && t != [] && t[0] == LF)
    ensures Ascii(s + t) == Ascii(s) + Ascii(t)
  {
    hide Replaced;
    ReplacedConcat(s, t);
  }

  function Code(c: char): byte
    requires c as int < 0x80
  {
    c as int
  }

  /** The Unicode vowels with two dots, by the letter under them; their capitals are $20 lower, as in ASCII. */
  function Umlaut(vowel: char): Rune
    requires vowel in {'a', 'o', 'u'}
  {
    if vowel == 'a' then 0xE4 else if vowel == 'o' then 0xF6 else 0xFC
  }

  /** Umlauts are spelled with an e, in either case, and the sharp s with two. */
  lemma UmlautsSpelled(vowel: char)
    requires vowel in {'a', 'o', 'u'}
    ensures Ascii([Umlaut(vowel)]) == [Code(vowel), Code('e')]
    ensures Ascii([Umlaut(vowel) - 0x20]) == [Code(vowel) - 0x20, Code('e')]
    ensures Ascii([0xDF]) == [Code('s'), Code('s')]
  {
    AsciiOf(Umlaut(vowel));
    AsciiOf(Umlaut(vowel) - 0x20);
    AsciiOf(0xDF);
  }

  lemma AsciiOf(r: Rune)
    ensures Replaced([r]) == if Replacement(r).Some? then Replacement(r).value else [r]
  {
    assert [r][1..] == [];
  }

  /** Quotes, dashes, the ellipsis and the fixed space become their plain counterparts, ends of line LF, anything else outside ASCII a question mark. */
  lemma PunctuationPlain(r: Rune)
    ensures 0x2018 <= r <= 0x2019 ==> Ascii([r]) == [Code('\'')]
    ensures 0x201C <= r <= 0x201D ==> Ascii([r]) == [Code('"')]
    ensures 0x2013 <= r <= 0x2014 ==> Ascii([r]) == [Code('-')]
    ensures r == 0x2026 ==> Ascii([r]) == [Code('.'), Code('.'), Code('.')]
    ensures r == 0xA0 ==> Ascii([r]) == [Code(' ')]
    ensures r == CR ==> Ascii([r]) == [LF] && Ascii([CR, LF]) == [LF]
    ensures !Plain(r) && r != CR && !Spelled(r) ==> Ascii([r]) == [Code('?')]
  {
    AsciiOf(r);
    assert [CR, LF][2..] == [];
  }

  /** Characters outside ASCII with a spelling of their own. */
  predicate Spelled(r: Rune) {
    || r in {0xDF, 0xA0, 0x2013, 0x2014, 0x2018, 0x2019, 0x201C, 0x201D, 0x2026}
    || r in {Umlaut('a'), Umlaut('o'), Umlaut('u')}
    || r + 0x20 in {Umlaut('a'), Umlaut('o'), Umlaut('u')}
  }

  // ---- replies: upper case and light punctuation ----

  function Upper(a: byte): byte {
    if 0x61 <= a <= 0x7A then a - 0x20 else a
  }

  // the space and . , : ; ! ? ( ) ' " + - = * /
  predicate LightPunctuation(a: byte) {
    a in {0x20, 0x2E, 0x2C, 0x3A, 0x3B, 0x21, 0x3F, 0x28, 0x29, 0x27, 0x22, 0x2B, 0x2D, 0x3D, 0x2A, 0x2F}
  }

  lemma PunctuationSpelled(c: char)
    requires c as int < 0x80
    ensures LightPunctuation(Code(c)) <==> c in " .,:;!?()'\"+-=*/"
  {}

  predicate C64Plain(a: byte) {
    a == LF || 0x41 <= a <= 0x5A || 0x30 <= a <= 0x39 || LightPunctuation(a)
  }

  function C64Char(a: byte): (c: byte)
    ensures C64Plain(c) && (c == a <==> C64Plain(a))
  {
    if C64Plain(a) then a
    else if a == 0x60 then 0x27
    else if a == 0x5B || a == 0x7B then 0x28
    else if a == 0x5D || a == 0x7D then 0x29
    else if a == 0x5C then 0x2F
    else 0x20
  }

  function C64Text(s: seq<Rune>): (t: seq<byte>)
    ensures |t| == |Ascii(s)|
    ensures forall i :: 0 <= i < |t| ==> C64Plain(t[i])
  {
    var a := Ascii(s);
    seq(|a|, i requires 0 <= i < |a| => C64Char(Upper(a[i])))
  }

  method ToC64Text(s: seq<Rune>) returns (out: seq<byte>)
    ensures out == C64Text(s)
  {
    var a := ToASCII(s);
    out := [];
    for i := 0 to |a|
      invariant |out| == i && forall j :: 0 <= j < i ==> out[j] == C64Char(Upper(a[j]))
    {
      var r := Upper(a[i]);
      if r == LF || 0x41 <= r <= 0x5A || 0x30 <= r <= 0x39 || LightPunctuation(r) {
        out := out + [r];
      } else if r == 0x60 {
        out := out + [0x27];
      } else if r == 0x5B || r == 0x7B {
        out := out + [0x28];
      } else if r == 0x5D || r == 0x7D {
        out := out + [0x29];
      } else if r == 0x5C {
        out := out + [0x2F];
      } else {
        out := out + [0x20];
      }
    }
  }

  /** Again a fixed point exactly on its own alphabet. */
  lemma C64TextFixesPlain(s: seq<byte>)
    ensures C64Text(s) == s <==> forall i :: 0 <= i < |s| ==> C64Plain(s[i])
  {
    if forall i :: 0 <= i < |s| ==> C64Plain(s[i]) {
      assert forall i :: 0 <= i < |s| ==> C64Plain(s[i]) ==> Plain(s[i]);
      AsciiFixesPlain(s);
    }
  }

  /** Place by place: letters become capitals, brackets and braces parentheses, and what has no counterpart a space. */
  lemma C64TextSpelled(s: seq<Rune>, i: nat)
    requires i < |Ascii(s)|
    ensures |C64Text(s)| == |Ascii(s)|
    ensures var a, c := Ascii(s)[i], C64Text(s)[i];
            && (Code('a') <= a <= Code('z') ==> c - Code('A') == a - Code('a'))
            && (a in {Code('['), Code('{')} ==> c == Code('('))
            && (a in {Code(']'), Code('}')} ==> c == Code(')'))
            && (a == Code('`') ==> c == Code('\''))
            && (a == Code('\\') ==> c == Code('/'))
            && (C64Plain(a) ==> c == a)
            && (!C64Plain(a) && !(Code('a') <= a <= Code('z')) && !Translated(a) ==> c == Code(' '))
  {}

  predicate Translated(a: byte) {
    a in {Code('['), Code('{'), Code(']'), Code('}'), Code('`'), Code('\\')}
  }

  /** A text with its ASCII capitals written small. */
  function Lowered(s: seq<Rune>): (t: seq<Rune>)
    ensures |t| == |s|
    ensures forall i :: 0 <= i < |s| ==> t[i] == Small(s[i])
  {
    seq(|s|, i requires 0 <= i < |s| => Small(s[i]))
  }

  /** Small or capital letters in a reply make no difference. */
  lemma CaseMakesNoDifference(s: seq<Rune>)
    ensures C64Text(Lowered(s)) == C64Text(s)
  {
    hide Replaced;
    LoweredReplaced(s);
    var r, l := Replaced(s), Replaced(Lowered(s));
    forall i | 0 <= i < |r| ensures C64Char(Upper(AsciiRune(l[i]))) == C64Char(Upper(AsciiRune(r[i]))) {
      assert l[i] == Small(r[i]) || l[i] == r[i];
    }
  }

  function Small(r: Rune): Rune {
    if 'A' as int <= r <= 'Z' as int then r + 0x20 else r
  }

  /** The same but for some capitals written small. */
  predicate SameLetters(l: seq<Rune>, r: seq<Rune>) {
    |l| == |r| && forall i :: 0 <= i < |r| ==> l[i] == Small(r[i]) || l[i] == r[i]
  }

  lemma SameLettersConcat(a: seq<Rune>, b: seq<Rune>, c: seq<Rune>, d: seq<Rune>)
    requires SameLetters(a, b) && SameLetters(c, d)
    ensures SameLetters(a + c, b + d)
  {}

  lemma {:induction false} LoweredReplaced(s: seq<Rune>)
    ensures SameLetters(Replaced(Lowered(s)), Replaced(s))
  {
    hide Replacement, SameLetters;
    if s == [] {
      Nothing();
    } else if s[0] == CR && |s| > 1 && s[1] == LF {
      assert Lowered(s)[2..] == Lowered(s[2..]);
      LoweredReplaced(s[2..]);
      OneLetter(LF);
      SameLettersConcat([LF], [LF], Replaced(Lowered(s[2..])), Replaced(s[2..]));
    } else {
      assert Lowered(s)[1..] == Lowered(s[1..]);
      LoweredReplaced(s[1..]);
      OneLetter(s[0]);
      SameLettersConcat(Spelling(Small(s[0])), Spelling(s[0]), Replaced(Lowered(s[1..])), Replaced(s[1..]));
    }
  }

  lemma OneLetter(r: Rune)
    ensures SameLetters(Spelling(Small(r)), Spelling(r)) && SameLetters([r], [r])
  {}

  lemma Nothing()
    ensures SameLetters([], [])
  {}

  // ---- frames to the C64 ----

  const TEXT_CHUNK_MAX: nat := 62
  const BRIDGE_FRAME_PAYLOAD_MAX: nat := 0x7B
  const BRIDGE_FRAME_BODY_MAX: nat := BRIDGE_FRAME_PAYLOAD_MAX - 1

  /** Every byte seven bits, a type both ends know, and room for the id within the C64's limit. */
  predicate FitsLine(f: Frame) {
    KnownType(f.typ) && f.typ < 0x7C && |f.payload| <= BRIDGE_FRAME_BODY_MAX && SevenBit(f.payload)
  }

  function Truncated(a: seq<byte>): seq<byte> {
    if |a| > BRIDGE_FRAME_BODY_MAX then a[..BRIDGE_FRAME_BODY_MAX] else a
  }

  function MsgFrame(text: seq<Rune>): (f: Frame)
    ensures FitsLine(f) && f.payload <= Ascii(text)
    ensures |f.payload| < BRIDGE_FRAME_BODY_MAX ==> f.payload == Ascii(text)
  {
    Frame(MSG, Truncated(Ascii(text)))
  }

  /** The first line of a command. */
  method ExecFrame(command: seq<Rune>) returns (f: Frame)
    ensures FitsLine(f) && f.typ == EXEC
    ensures var a, n := Ascii(command), |f.payload|;
            && f.payload <= a
            && LF !in f.payload && CR !in f.payload
            && (n == BRIDGE_FRAME_BODY_MAX || n == |a| || a[n] == LF)
  {
    var cmd := ToASCII(command);
    var i := 0;
    while i < |cmd| && cmd[i] != LF && cmd[i] != CR
      invariant i <= |cmd|
      invariant forall j :: 0 <= j < i ==> cmd[j] != LF && cmd[j] != CR
    {
      i := i + 1;
    }
    if i < |cmd| {
      cmd := cmd[..i];
    }
    f := Frame(EXEC, Truncated(cmd));
  }

  function Payloads(fs: seq<Frame>): seq<byte> {
    if fs == [] then [] else Payloads(fs[..|fs| - 1]) + fs[|fs| - 1].payload
  }

  class TextLane {
    var textOutQueue: seq<byte>
    var sent: seq<Frame>

    constructor (reply: seq<Rune>)
      ensures textOutQueue == C64Text(reply) && sent == []
    {
      new;
      textOutQueue := ToC64Text(reply);
      sent := [];
    }

    /**
     * Chunk after chunk, until the queue is empty or, after `rounds` of them, the completion drain
     * sets in or a send fails.
     */
    method SendNextTextChunk(rounds: nat)
      requires SevenBit(textOutQueue)
      modifies this
      ensures Payloads(sent) + textOutQueue == old(Payloads(sent) + textOutQueue)
      ensures old(sent) <= sent && SevenBit(textOutQueue)
      ensures |textOutQueue| == if old(|textOutQueue|) <= TEXT_CHUNK_MAX * rounds then 0
                                else old(|textOutQueue|) - TEXT_CHUNK_MAX * rounds
      ensures forall i :: |old(sent)| <= i < |sent| ==> FitsLine(sent[i]) && sent[i].typ == TEXT && sent[i].payload != []
      ensures forall i :: |old(sent)| <= i < |sent| - 1 ==> |sent[i].payload| == TEXT_CHUNK_MAX
    {
      ghost var q := textOutQueue;
      var n := 0;
      while textOutQueue != [] && n < rounds
        invariant Payloads(sent) + textOutQueue == old(Payloads(sent) + textOutQueue)
        invariant old(sent) <= sent && SevenBit(textOutQueue) && n <= rounds
        invariant |textOutQueue| == if |q| <= TEXT_CHUNK_MAX * n then 0 else |q| - TEXT_CHUNK_MAX * n
        invariant forall i :: |old(sent)| <= i < |sent| ==> FitsLine(sent[i]) && sent[i].typ == TEXT && sent[i].payload != []
        invariant forall i :: |old(sent)| <= i < |sent| ==>
                    |sent[i].payload| == TEXT_CHUNK_MAX || (i == |sent| - 1 && textOutQueue == [])
        decreases |textOutQueue|
      {
        var chunk := textOutQueue;
        if |chunk| > TEXT_CHUNK_MAX {
          chunk := chunk[..TEXT_CHUNK_MAX];
        }
        assert textOutQueue == chunk + textOutQueue[|chunk|..];
        var f := Frame(TEXT, chunk);
        assert (sent + [f])[..|sent|] == sent;
        assert Payloads(sent + [f]) + textOutQueue[|chunk|..] == Payloads(sent) + textOutQueue;
        textOutQueue := textOutQueue[|chunk|..];
        sent := sent + [f];
        n := n + 1;
      }
    }
  }
}
