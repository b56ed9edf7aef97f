/** src/mime/encodedword.go: decoding headers that others wrote: text with
    encoded-words in it, in any charset and encoding. */
module EncodedHeader {
  import opened Basics
  import opened Utf8
  import opened MediaType
  import opened EncodedWord

  // ----- text and words -----

  /** Some text, and then an encoded-word. */
  datatype Part = Part(before: str, charset: str, encoding: byte, text: str)

  function WordOf(p: Part): str {
    [EQUALS, QUESTION] + (p.charset + ([QUESTION, p.encoding, QUESTION] + (p.text + CLOSE_WORD)))
  }

  function Header(parts: seq<Part>, last: str): str {
    if parts == [] then last else parts[0].before + (WordOf(parts[0]) + Header(parts[1..], last))
  }

  predicate NoPair(s: str) { IndexPair(s, EQUALS, QUESTION) == -1 }

  /** The fields of an encoded-word hold no question mark, section 2 of RFC 2047;
      and its text can be decoded. */
  predicate IsPart(d: Decoder, p: Part) {
    NoPair(p.before) && QUESTION !in p.charset && QUESTION !in p.text && DecodedText(d, p.encoding, p.text).Some?
  }

  predicate AreParts(d: Decoder, parts: seq<Part>) { forall i :: 0 <= i < |parts| ==> IsPart(d, parts[i]) }

  /** White space between two encoded-words is not shown; other text is. */
  function Shown(before: str, betweenWords: bool): str {
    if betweenWords && forall i :: 0 <= i < |before| ==> before[i] in {SPACE, 9, LF, CR} then [] else before
  }

  /** What a reader is to see; None if some text is in a charset that cannot be
      read. */
  function Meaning(d: Decoder, parts: seq<Part>, last: str, betweenWords: bool): Option<str>
    requires AreParts(d, parts)
  {
    if parts == [] then Some(last)
    else
      var p := parts[0];
      match Converted(d, p.charset, DecodedText(d, p.encoding, p.text).value)
      case None => None
      case Some(text) =>
        match Meaning(d, parts[1..], last, true)
        case None => None
        case Some(more) => Some(Shown(p.before, betweenWords) + text + more)
  }

  lemma {:induction false} PairAfter(s: str, rest: str)
    requires NoPair(s) && |rest| >= 2 && rest[0] == EQUALS && rest[1] == QUESTION
    ensures IndexPair(s + rest, EQUALS, QUESTION) == |s|
  {
    var h := s + rest;
    if s == [] {
      assert h == rest;
    } else {
      assert h[1..] == s[1..] + rest;
      PairAfter(s[1..], rest);
    }
  }

  lemma PartFound(p: Part, rest: str)
    requires NoPair(p.before) && QUESTION !in p.charset && QUESTION !in p.text
    ensures FindWord(p.before + (WordOf(p) + rest)) ==
            Some(Found(|p.before|, p.charset, p.encoding, p.text, |p.before| + |WordOf(p)|))
  {
    hide FindWord, IndexPair;
    var c := p.text + (CLOSE_WORD + rest);
    var b := [QUESTION, p.encoding, QUESTION] + c;
    var a := p.charset + b;
    var w := [EQUALS, QUESTION] + a;
    WordThen(p, rest);
    var h := p.before + w;
    PairAfter(p.before, w);
    assert h[|p.before| + 2..] == a;
    FoundParts(h, |p.before|, p.charset, p.encoding, p.text, rest, a, b, c);
  }

  lemma WordThen(p: Part, rest: str)
    ensures WordOf(p) + rest ==
            [EQUALS, QUESTION] + (p.charset + ([QUESTION, p.encoding, QUESTION] + (p.text + (CLOSE_WORD + rest))))
  {}

  lemma {:induction false} RestDecoded(d: Decoder, parts: seq<Part>, last: str, betweenWords: bool)
    requires AreParts(d, parts) && NoPair(last)
    ensures DecodedRest(d, Header(parts, last), betweenWords) == Meaning(d, parts, last, betweenWords)
    decreases |parts|
  {
    hide FindWord, DecodedText, Converted, WordOf, IndexPair;
    if parts == [] {
      NothingFound(last);
    } else {
      var p, rest := parts[0], Header(parts[1..], last);
      RestDecoded(d, parts[1..], last, true);
      PartFound(p, rest);
      var h, end := Header(parts, last), |p.before| + |WordOf(p)|;
      assert h == p.before + WordOf(p) + rest;
      assert h[end..] == rest && h[..|p.before|] == p.before;
      ShownIs(p.before, betweenWords);
    }
  }

  lemma NothingFound(s: str)
    requires NoPair(s)
    ensures FindWord(s) == None
  {}

  lemma ShownIs(before: str, betweenWords: bool)
    ensures Shown(before, betweenWords) ==
            if |before| > 0 && (!betweenWords || HasNonWhitespace(before)) then before else []
  {}

  /** A header is decoded to its text and that of its encoded-words, without the
      white space between two of them.  It fails exactly if a charset cannot be
      read. */
  lemma HeaderDecoded(d: Decoder, parts: seq<Part>, last: str)
    requires AreParts(d, parts) && NoPair(last)
    ensures DecodedHeader(d, Header(parts, last)) == Meaning(d, parts, last, false)
  {
    hide DecodedRest, Converted, IndexPair, WordOf, IsPart;
    if parts != [] {
      var p, rest := parts[0], Header(parts[1..], last);
      assert IsPart(d, p);
      var w := WordOf(p) + rest;
      WordStarts(p, rest);
      HasNoPair(d, p);
      PairAfter(p.before, w);
      var bare := [p.(before := [])] + parts[1..];
      BareParts(d, parts);
      assert Header(bare, last) == w by {
        assert bare[1..] == parts[1..];
        SameWord(p);
        assert [] + (WordOf(p) + rest) == w;
      }
      var h := Header(parts, last);
      assert h[..|p.before|] == p.before && h[|p.before|..] == w;
      RestDecoded(d, bare, last, false);
      assert bare[1..] == parts[1..];
      MeaningBare(d, parts, last);
    } else {
      PairNone(last);
    }
  }

  lemma HasNoPair(d: Decoder, p: Part)
    requires IsPart(d, p)
    ensures NoPair(p.before)
  {}

  lemma PairNone(s: str)
    requires NoPair(s)
    ensures IndexPair(s, EQUALS, QUESTION) == -1
  {}

  lemma SameWord(p: Part)
    ensures WordOf(p.(before := [])) == WordOf(p)
  {}

  lemma WordStarts(p: Part, rest: str)
    ensures var w := WordOf(p) + rest; |w| >= 2 && w[0] == EQUALS && w[1] == QUESTION
  {}

  lemma BareParts(d: Decoder, parts: seq<Part>)
    requires parts != [] && AreParts(d, parts)
    ensures AreParts(d, [parts[0].(before := [])] + parts[1..])
  {
    var bare := [parts[0].(before := [])] + parts[1..];
    forall i | 0 <= i < |bare|
      ensures IsPart(d, bare[i])
    {
      assert IsPart(d, parts[i]);
    }
  }

  /** The text before the first word is always shown. */
  lemma MeaningBare(d: Decoder, parts: seq<Part>, last: str)
    requires parts != [] && AreParts(d, parts) && AreParts(d, [parts[0].(before := [])] + parts[1..])
    ensures Meaning(d, parts, last, false) ==
            match Meaning(d, [parts[0].(before := [])] + parts[1..], last, false)
            case None => None
            case Some(rest) => Some(parts[0].before + rest)
  {
    hide Converted, DecodedText, IsPart;
    var p := parts[0];
    assert IsPart(d, p);
    var bare := [p.(before := [])] + parts[1..];
    assert bare[1..] == parts[1..];
    PartText(d, p);
    var text, more := Converted(d, p.charset, DecodedText(d, p.encoding, p.text).value), Meaning(d, parts[1..], last, true);
    if text.Some? && more.Some? {
      assert p.before + ([] + text.value + more.value) == p.before + text.value + more.value;
    }
  }

  lemma PartText(d: Decoder, p: Part)
    requires IsPart(d, p)
    ensures DecodedText(d, p.encoding, p.text).Some?
  {}

  // ----- charsets -----

  /** Latin-1: each byte is the character with its number. */
  lemma {:induction false} Latin1Runes(content: str)
    ensures DecodeAll(FromLatin1(content)) == content
  {
    hide EncodeRune, DecodeRune;
    if content == [] {
      NothingDecoded();
    } else {
      var c := EncodeRune(content[0]);
      var rest := FromLatin1(content[1..]);
      DecodeEncoded(content[0], rest);
      assert (c + rest)[|c|..] == rest;
      Latin1Runes(content[1..]);
    }
  }

  function AsciiRune(c: byte): int { if c < RUNE_SELF then c else RUNE_ERROR }

  function AsciiRunesOf(content: str): seq<int> {
    if content == [] then [] else [AsciiRune(content[0])] + AsciiRunesOf(content[1..])
  }

  /** ASCII: any other byte is an error. */
  lemma {:induction false} AsciiRunes(content: str)
    ensures DecodeAll(FromAscii(content)) == AsciiRunesOf(content)
  {
    hide EncodeRune, DecodeRune, AsciiRune;
    if content == [] {
      NothingDecoded();
    } else {
      var r, rest := AsciiRune(content[0]), FromAscii(content[1..]);
      var c := EncodeRune(r);
      AsciiFirst(content);
      DecodeEncoded(r, rest);
      assert (c + rest)[|c|..] == rest;
      AsciiRunes(content[1..]);
    }
  }

  lemma AsciiFirst(content: str)
    requires content != []
    ensures FromAscii(content) == EncodeRune(AsciiRune(content[0])) + FromAscii(content[1..])
    ensures IsScalar(AsciiRune(content[0]))
  {}

  /** The charsets that are known, in any case: UTF-8 stays, the others become
      UTF-8 for their characters; and any other is asked of the reader. */
  lemma CharsetMeaning(d: Decoder, charset: str, content: str)
    ensures var name, text := ToLower(charset), Converted(d, charset, content);
            && (name == UTF_8 ==> text == Some(content))
            && (name == ISO_8859_1 ==> text.Some? && DecodeAll(text.value) == content)
            && (name == US_ASCII ==> text.Some? && DecodeAll(text.value) == AsciiRunesOf(content))
            && (name !in {UTF_8, ISO_8859_1, US_ASCII} ==> text == d.charsetReader(name, content))
  {
    hide DecodeAll, FromLatin1, FromAscii, AsciiRunesOf, ToLower;
    Latin1Runes(content);
    AsciiRunes(content);
    assert UTF_8 != ISO_8859_1 && US_ASCII != ISO_8859_1 && UTF_8 != US_ASCII;
  }

  /** The two encodings, named by a letter of either case; no other letter names
      one. */
  lemma EncodingMeaning(d: Decoder, text: str)
    ensures DecodedText(d, 66, text) == DecodedText(d, 98, text) == d.base64(text)
    ensures DecodedText(d, 81, text) == DecodedText(d, 113, text) == QDecoded(text)
    ensures forall e: byte :: DecodedText(d, e, text).Some? ==> e in {66, 98, 81, 113}
  {
    hide QDecoded;
  }

  /** Text in another charset is written as one word, and means what its charset
      makes of it. */
  lemma OtherCharset(d: Decoder, charset: str, s: str)
    requires IsCharset(charset) && !IsUtf8(charset) && NeedsEncoding(s)
    ensures DecodedHeader(d, Encoded(charset, s)) == Converted(d, charset, s)
  {
    hide Converted, DecodedHeader, QDecoded, QString, NeedsEncoding, IndexPair;
    var p := Part([], charset, LETTER_Q, QString(s));
    QRoundTrip(s);
    QHasNoQuestion(s);
    PairInNothing();
    assert IsPart(d, p);
    assert AreParts(d, [p]);
    HeaderDecoded(d, [p], []);
    assert [p][1..] == [];
    assert Header([p], []) == Word(charset, s);
    var text := Converted(d, charset, s);
    if text.Some? { assert [] + text.value + [] == text.value; }
  }

  lemma PairInNothing()
    ensures NoPair([])
  {}

  // ----- Q encoding as others write it -----

  /** How one byte is written: as it is, a space as an underscore, or in
      hexadecimal, with digits of either case. */
  datatype Spelling = Bare(c: byte) | Blank | Hex(c: byte, upper1: bool, upper2: bool)

  function Digit(d: nat, upper: bool): byte
    requires d < 16
  {
    if upper then UpperHex(d) else LowerHex(d)
  }

  function Spelled(q: Spelling): str {
    match q
    case Bare(c) => [c]
    case Blank => [UNDERSCORE]
    case Hex(c, u1, u2) => [EQUALS, Digit(c / 16, u1), Digit(c % 16, u2)]
  }

  function ByteOf(q: Spelling): byte { if q == Blank then SPACE else q.c }

  predicate MayBeBare(c: byte) { (0x20 <= c <= 0x7E || c in {9, LF, CR}) && c != EQUALS && c != UNDERSCORE }

  function AllSpelled(qs: seq<Spelling>): str { if qs == [] then [] else Spelled(qs[0]) + AllSpelled(qs[1..]) }

  function BytesOf(qs: seq<Spelling>): str { if qs == [] then [] else [ByteOf(qs[0])] + BytesOf(qs[1..]) }

  /** What cannot be read: an equals sign without two digits after it, or a byte
      that is not printable. */
  predicate Unreadable(s: str) {
    s != [] &&
    if s[0] == EQUALS then |s| < 3 || !IsHex(s[1]) || !IsHex(s[2]) else s[0] != UNDERSCORE && !MayBeBare(s[0])
  }

  lemma QFirst(q: Spelling, rest: str)
    requires q.Bare? ==> MayBeBare(q.c)
    ensures QDecoded(Spelled(q) + rest) == match QDecoded(rest) case None => None case Some(t) => Some([ByteOf(q)] + t)
  {
    hide IsHex, UnHex, LowerHex, UpperHex;
    assert (Spelled(q) + rest)[|Spelled(q)|..] == rest;
    if q.Hex? {
      HexDigits(Digit(q.c / 16, q.upper1));
      HexDigits(Digit(q.c % 16, q.upper2));
    }
  }

  lemma QEnd(end: str)
    requires end == [] || Unreadable(end)
    ensures QDecoded(end) == if end == [] then Some([]) else None
  {}

  /** Q decoding of any text: what is spelled, or nothing if some of it cannot be
      read. */
  lemma {:induction false} QSpelled(qs: seq<Spelling>, end: str)
    requires (forall i :: 0 <= i < |qs| && qs[i].Bare? ==> MayBeBare(qs[i].c)) && (end == [] || Unreadable(end))
    ensures QDecoded(AllSpelled(qs) + end) == if end == [] then Some(BytesOf(qs)) else None
  {
    hide QDecoded, Spelled, MayBeBare, Unreadable;
    if qs == [] {
      assert [] + end == end;
      QEnd(end);
    } else {
      var rest := AllSpelled(qs[1..]) + end;
      QSpelled(qs[1..], end);
      assert AllSpelled(qs) + end == Spelled(qs[0]) + rest;
      QFirst(qs[0], rest);
    }
  }
}
