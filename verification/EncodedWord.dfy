/** src/mime/encodedword.go: Q-encoded words, sections 2 and 5 of RFC 2047. */
module EncodedWord {
  import opened Basics
  import opened Utf8
  import opened MediaType

  const SPACE: byte := 32
  const QUESTION: byte := 63
  const UNDERSCORE: byte := 95
  const LETTER_Q: byte := 113

  const MAX_ENCODED_WORD_LEN := 75
  const MAX_CONTENT_LEN := 63

  // ----- encoding -----

  /** A byte that stands for itself, or a space. */
  predicate IsPlain(b: byte) { 0x20 <= b <= 0x7E && b != EQUALS && b != QUESTION && b != UNDERSCORE }

  function QByte(b: byte): str {
    if b == SPACE then [UNDERSCORE] else if IsPlain(b) then [b] else [EQUALS, UpperHex(b / 16), UpperHex(b % 16)]
  }

  function QString(s: str): str { if s == [] then [] else QByte(s[0]) + QString(s[1..]) }

  /** How many bytes are encoded together, and to how many bytes. */
  function Step(s: str): (r: (nat, nat))
    requires s != []
    ensures 0 < r.0 <= |s|
  {
    if IsPlain(s[0]) then (1, 1)
    else
      var n := DecodeRune(s).1;
      (n, 3 * n)
  }

  function IsUtf8(charset: str): bool { ToLower(charset) == UTF_8 }

  /** What goes into each encoded-word, when chunk is in the current one
      already. */
  function Chunks(s: str, chunk: str): seq<str>
    decreases |s|
  {
    if s == [] then [chunk]
    else
      var (n, e) := Step(s);
      if |QString(chunk)| + e > MAX_CONTENT_LEN then [chunk] + Chunks(s[n..], s[..n])
      else Chunks(s[n..], chunk + s[..n])
  }

  function OpenWord(charset: str): str { [EQUALS, QUESTION] + charset + [QUESTION, LETTER_Q, QUESTION] }

  const CLOSE_WORD: str := [QUESTION, EQUALS]

  function Word(charset: str, chunk: str): str { OpenWord(charset) + QString(chunk) + CLOSE_WORD }

  /** The words, separated by spaces. */
  function Words(charset: str, chunks: seq<str>): str {
    if chunks == [] then []
    else if |chunks| == 1 then Word(charset, chunks[0])
    else Word(charset, chunks[0]) + [SPACE] + Words(charset, chunks[1..])
  }

  /** WordEncoder.Encode, for QEncoding. */
  function Encoded(charset: str, s: str): str {
    if !NeedsEncoding(s) then s
    else if IsUtf8(charset) then Words(charset, Chunks(s, []))
    else Word(charset, s)
  }

  // ----- decoding -----

  /** What the decoder does not do itself: base64, and other charsets. */
  datatype Decoder = Decoder(base64: str -> Option<str>, charsetReader: (str, str) -> Option<str>)

  function QDecoded(s: str): Option<str> {
    if s == [] then Some([])
    else if s[0] == EQUALS then
      if |s| < 3 || !IsHex(s[1]) || !IsHex(s[2]) then None
      else
        match QDecoded(s[3..])
        case None => None
        case Some(t) => Some([UnHex(s[1]) * 16 + UnHex(s[2])] + t)
    else if s[0] == UNDERSCORE || 0x20 <= s[0] <= 0x7E || s[0] in {9, LF, CR} then
      match QDecoded(s[1..])
      case None => None
      case Some(t) => Some([if s[0] == UNDERSCORE then SPACE else s[0]] + t)
    else None
  }

  function DecodedText(d: Decoder, encoding: byte, text: str): Option<str> {
    if encoding == 66 || encoding == 98 then d.base64(text)
    else if encoding == 81 || encoding == LETTER_Q then QDecoded(text)
    else None
  }

  const ISO_8859_1: str := [105, 115, 111, 45, 56, 56, 53, 57, 45, 49]

  /** Each byte as a rune. */
  function FromLatin1(content: str): str { if content == [] then [] else EncodeRune(content[0]) + FromLatin1(content[1..]) }

  function FromAscii(content: str): str {
    if content == [] then []
    else (if content[0] >= RUNE_SELF then EncodeRune(RUNE_ERROR) else [content[0]]) + FromAscii(content[1..])
  }

  function Converted(d: Decoder, charset: str, content: str): Option<str> {
    if IsUtf8(charset) then Some(content)
    else if ToLower(charset) == ISO_8859_1 then Some(FromLatin1(content))
    else if ToLower(charset) == US_ASCII then Some(FromAscii(content))
    else d.charsetReader(ToLower(charset), content)
  }

  /** Where x is followed by y for the first time, or -1. */
  function IndexPair(s: str, x: byte, y: byte): (i: int)
    ensures -1 <= i < |s| - 1 || i == -1
  {
    if |s| < 2 then -1
    else if s[0] == x && s[1] == y then 0
    else
      var j := IndexPair(s[1..], x, y);
      if j == -1 then -1 else j + 1
  }

  predicate HasNonWhitespace(s: str) { exists i :: 0 <= i < |s| && s[i] !in {SPACE, 9, LF, CR} }

  /** The parts of the first thing that looks like an encoded-word. */
  datatype Found = Found(start: nat, charset: str, encoding: byte, text: str, end: nat)

  function FindWord(h: str): (f: Option<Found>)
    ensures f.Some? ==> f.value.start + 2 + |f.value.text| < f.value.end <= |h|
  {
    var start := IndexPair(h, EQUALS, QUESTION);
    if start == -1 then None
    else
      var i := IndexByte(h[start + 2..], QUESTION);
      var cur := start + 2 + i + 1;
      if i == -1 || |h| < cur + 4 || h[cur + 1] != QUESTION then None
      else
        var j := IndexPair(h[cur + 2..], QUESTION, EQUALS);
        if j == -1 then None
        else Some(Found(start, h[start + 2..start + 2 + i], h[cur], h[cur + 2..cur + 2 + j], cur + 2 + j + 2))
  }

  /** The rest of a header; None if charsetReader fails. */
  function DecodedRest(d: Decoder, h: str, betweenWords: bool): Option<str>
    decreases |h|
  {
    match FindWord(h)
    case None => Some(h)
    case Some(f) =>
      match DecodedText(d, f.encoding, f.text) {
        case None =>
          (match DecodedRest(d, h[f.start + 2..], false)
           case None => None
           case Some(rest) => Some(h[..f.start + 2] + rest))
        case Some(content) =>
          var before := if f.start > 0 && (!betweenWords || HasNonWhitespace(h[..f.start])) then h[..f.start] else [];
          (match Converted(d, f.charset, content)
           case None => None
           case Some(text) =>
             match DecodedRest(d, h[f.end..], true)
             case None => None
             case Some(rest) => Some(before + text + rest))
      }
  }

  /** WordDecoder.DecodeHeader. */
  function DecodedHeader(d: Decoder, header: str): Option<str> {
    var i := IndexPair(header, EQUALS, QUESTION);
    if i == -1 then Some(header)
    else
      match DecodedRest(d, header[i..], false)
      case None => None
      case Some(rest) => Some(header[..i] + rest)
  }

  // ----- chunks -----

  lemma QCons(c: byte, t: str)
    ensures QString([c] + t) == QByte(c) + QString(t) && QString([]) == []
  {
    assert ([c] + t)[1..] == t;
  }

  lemma {:induction false} QConcat(a: str, b: str)
    ensures QString(a + b) == QString(a) + QString(b)
  {
    hide QString, QByte;
    if a == [] {
      QCons(0, []);
      assert a + b == b;
    } else {
      var c, t := a[0], a[1..];
      QConcat(t, b);
      QCons(c, t);
      QCons(c, t + b);
      assert a == [c] + t && a + b == [c] + (t + b);
    }
  }

  /** Nothing is lost at the splits. */
  lemma {:induction false} ChunksFlatten(s: str, chunk: str)
    ensures Chunks(s, chunk) != [] && Flatten(Chunks(s, chunk)) == chunk + s
    decreases |s|
  {
    hide Step, QString;
    if s == [] {
      assert Flatten([chunk]) == chunk + Flatten([]);
    } else {
      var (n, e) := Step(s);
      assert s == s[..n] + s[n..];
      if |QString(chunk)| + e > MAX_CONTENT_LEN {
        ChunksFlatten(s[n..], s[..n]);
        var more := Chunks(s[n..], s[..n]);
        assert ([chunk] + more)[1..] == more;
      } else {
        ChunksFlatten(s[n..], chunk + s[..n]);
        assert chunk + s[..n] + s[n..] == chunk + s;
      }
    }
  }

  lemma {:induction false} QLength(s: str)
    ensures |QString(s)| <= 3 * |s|
  {
    if s != [] { QLength(s[1..]); }
  }

  lemma StepFits(s: str)
    requires s != []
    ensures |QString(s[..Step(s).0])| <= Step(s).1 <= 12
  {
    var (n, e) := Step(s);
    if IsPlain(s[0]) {
      assert s[..1] == [s[0]] + [];
      QCons(s[0], []);
    } else {
      QLength(s[..n]);
      StepWidth(s);
    }
  }

  lemma StepWidth(s: str)
    ensures DecodeRune(s).1 <= 4
  {}

  /** No word is longer than section 2 of RFC 2047 allows. */
  lemma {:induction false} WordsFit(s: str, chunk: str, charset: str, k: nat)
    requires IsUtf8(charset) && |QString(chunk)| <= MAX_CONTENT_LEN && k < |Chunks(s, chunk)|
    ensures |Word(charset, Chunks(s, chunk)[k])| <= MAX_ENCODED_WORD_LEN
    decreases |s|
  {
    hide QString;
    assert |charset| == 5;
    if s != [] {
      var (n, e) := Step(s);
      StepFits(s);
      if |QString(chunk)| + e > MAX_CONTENT_LEN {
        if k > 0 { WordsFit(s[n..], s[..n], charset, k - 1); }
      } else {
        QConcat(chunk, s[..n]);
        WordsFit(s[n..], chunk + s[..n], charset, k);
      }
    }
  }

  // ----- characters -----

  /** Decoding from the start of s stops at m. */
  predicate Boundary(s: str, m: nat)
    decreases |s|
  {
    m == 0 || (m <= |s| && DecodeRune(s).1 <= m && Boundary(s[DecodeRune(s).1..], m - DecodeRune(s).1))
  }

  lemma CutDecode(s: str, m: nat)
    requires s != [] && DecodeRune(s).1 <= m <= |s|
    ensures DecodeRune(s[..m]) == DecodeRune(s)
  {
    assert s == s[..m] + s[m..];
    if FullRune(s[..m]) {
      FullRuneStable(s[..m], s[m..]);
    } else {
      Incomplete(s[..m]);
      CutIncomplete(s, m);
    }
  }

  lemma CutIncomplete(s: str, m: nat)
    requires s != [] && 0 < m <= |s| && !FullRune(s[..m]) && DecodeRune(s).1 <= m
    ensures DecodeRune(s) == (RUNE_ERROR, 1)
  {}

  lemma DecodeCons(s: str)
    requires s != []
    ensures DecodeAll(s) == [DecodeRune(s).0] + DecodeAll(s[DecodeRune(s).1..])
  {}

  /** At a boundary, cutting splits no character. */
  lemma {:induction false} BoundarySplits(s: str, m: nat)
    requires Boundary(s, m) && m <= |s|
    ensures DecodeAll(s) == DecodeAll(s[..m]) + DecodeAll(s[m..])
    decreases |s|
  {
    hide DecodeRune, DecodeAll;
    if m == 0 {
      NothingDecoded();
      assert s[..0] == [] && s[0..] == s;
    } else {
      var n := DecodeRune(s).1;
      CutDecode(s, m);
      BoundarySplits(s[n..], m - n);
      DecodeCons(s);
      DecodeCons(s[..m]);
      assert s[n..][..m - n] == s[..m][n..] && s[n..][m - n..] == s[m..];
    }
  }

  lemma NothingDecoded()
    ensures DecodeAll([]) == []
  {}

  lemma {:induction false} BoundaryNext(t: str, m: nat)
    requires Boundary(t, m) && m < |t|
    ensures m + DecodeRune(t[m..]).1 <= |t| && Boundary(t, m + DecodeRune(t[m..]).1)
    decreases |t|
  {
    hide DecodeRune;
    if m == 0 {
      assert t[0..] == t;
    } else {
      var n := DecodeRune(t).1;
      BoundaryNext(t[n..], m - n);
      assert t[n..][m - n..] == t[m..];
    }
  }

  lemma StepIsWidth(s: str)
    requires s != []
    ensures Step(s).0 == DecodeRune(s).1
  {}

  function RunesOf(chunks: seq<str>): seq<int> {
    if chunks == [] then [] else DecodeAll(chunks[0]) + RunesOf(chunks[1..])
  }

  /** No character is split between words: section 5 of RFC 2047. */
  lemma {:induction false} CharactersWhole(s: str, chunk: str)
    requires Boundary(chunk + s, |chunk|)
    ensures RunesOf(Chunks(s, chunk)) == DecodeAll(chunk + s)
    decreases |s|
  {
    hide DecodeRune, DecodeAll, Step, QString, Boundary;
    var t := chunk + s;
    if s == [] {
      assert t == chunk;
      assert RunesOf([chunk]) == DecodeAll(chunk) + RunesOf([]);
    } else {
      var (n, e) := Step(s);
      StepIsWidth(s);
      assert t[|chunk|..] == s;
      BoundaryNext(t, |chunk|);
      assert s == s[..n] + s[n..];
      if |QString(chunk)| + e > MAX_CONTENT_LEN {
        BoundaryStart(s);
        assert s[0..] == s;
        BoundaryNext(s, 0);
        CharactersWhole(s[n..], s[..n]);
        BoundarySplits(t, |chunk|);
        assert t[..|chunk|] == chunk;
        var more := Chunks(s[n..], s[..n]);
        assert ([chunk] + more)[1..] == more;
      } else {
        assert chunk + s[..n] + s[n..] == t;
        CharactersWhole(s[n..], chunk + s[..n]);
      }
    }
  }

  lemma BoundaryStart(s: str)
    ensures Boundary(s, 0)
  {}

  /** The first chunk goes on with what comes next in s. */
  lemma {:induction false} FirstChunk(s: str, chunk: str) returns (m: nat)
    ensures m <= |s| && Chunks(s, chunk) != [] && Chunks(s, chunk)[0] == chunk + s[..m]
    decreases |s|
  {
    hide Step, QString;
    m := 0;
    assert chunk + s[..0] == chunk;
    if s != [] {
      var (n, e) := Step(s);
      if |QString(chunk)| + e <= MAX_CONTENT_LEN {
        m := FirstChunk(s[n..], chunk + s[..n]);
        assert chunk + s[..n] + s[n..][..m] == chunk + s[..n + m];
        m := n + m;
      }
    }
  }

  lemma StepCut(s: str, m: nat)
    requires s != [] && Step(s).0 <= m <= |s|
    ensures Step(s[..m]) == Step(s)
  {
    hide DecodeRune;
    if !IsPlain(s[0]) { CutDecode(s, m); }
  }

  /** A word ends only where the next character does not fit. */
  lemma {:induction false} WordsFull(s: str, chunk: str, k: nat)
    requires k + 1 < |Chunks(s, chunk)|
    ensures Chunks(s, chunk)[k + 1] != []
    ensures |QString(Chunks(s, chunk)[k])| + Step(Chunks(s, chunk)[k + 1]).1 > MAX_CONTENT_LEN
    decreases |s|
  {
    hide Step, QString;
    if s != [] {
      var (n, e) := Step(s);
      if |QString(chunk)| + e > MAX_CONTENT_LEN {
        if k > 0 {
          WordsFull(s[n..], s[..n], k - 1);
        } else {
          var m := FirstChunk(s[n..], s[..n]);
          assert s[..n] + s[n..][..m] == s[..n + m];
          StepCut(s, n + m);
        }
      } else {
        WordsFull(s[n..], chunk + s[..n], k);
      }
    }
  }

  /** The words that a string is encoded to: none is too long, and no character
      is split. */
  lemma WordsLawful(charset: str, s: str)
    requires IsUtf8(charset)
    ensures forall k :: 0 <= k < |Chunks(s, [])| ==> |Word(charset, Chunks(s, [])[k])| <= MAX_ENCODED_WORD_LEN
    ensures RunesOf(Chunks(s, [])) == DecodeAll(s)
  {
    hide Word, RunesOf, DecodeAll, Chunks, IsUtf8;
    forall k | 0 <= k < |Chunks(s, [])|
      ensures |Word(charset, Chunks(s, [])[k])| <= MAX_ENCODED_WORD_LEN
    {
      WordsFit(s, [], charset, k);
    }
    BoundaryStart([] + s);
    CharactersWhole(s, []);
    assert [] + s == s;
  }

  // ----- the round trip -----

  lemma QByteRoundTrip(c: byte, s: str)
    ensures QDecoded(QByte(c) + s) == match QDecoded(s) case None => None case Some(t) => Some([c] + t)
  {
    var q := QByte(c);
    assert (q + s)[|q|..] == s;
    if |q| == 3 { HexRoundTrip(c); }
  }

  lemma {:induction false} QRoundTrip(s: str)
    ensures QDecoded(QString(s)) == Some(s)
  {
    hide QByte, QDecoded;
    if s == [] {
      QNothing();
    } else {
      QRoundTrip(s[1..]);
      QByteRoundTrip(s[0], QString(s[1..]));
      assert [s[0]] + s[1..] == s;
    }
  }

  lemma QNothing()
    ensures QDecoded([]) == Some([])
  {}

  lemma {:induction false} QHasNoQuestion(s: str)
    ensures QUESTION !in QString(s)
  {
    if s != [] {
      QHasNoQuestion(s[1..]);
      HexRoundTrip(s[0]);
      assert QUESTION !in QByte(s[0]);
    }
  }

  lemma {:induction false} IndexPairIs(s: str, x: byte, y: byte, i: nat)
    requires i + 1 < |s| && s[i] == x && s[i + 1] == y && x !in s[..i]
    ensures IndexPair(s, x, y) == i
  {
    if i > 0 {
      assert s[0] == s[..i][0];
      assert s[..i] == [s[0]] + s[1..][..i - 1];
      IndexPairIs(s[1..], x, y, i - 1);
    }
  }

  predicate IsCharset(charset: str) { QUESTION !in charset }

  lemma Utf8IsCharset(charset: str)
    requires IsUtf8(charset)
    ensures IsCharset(charset) && |charset| == 5
  {
    ToLowerIs(charset);
    forall i | 0 <= i < 5
      ensures charset[i] != QUESTION
    {
      assert ToLower(charset)[i] == Lower(charset[i]);
    }
  }

  lemma DropPrefix(x: str, y: str)
    ensures (x + y)[|x|..] == y && (x + y)[..|x|] == x
  {}

  lemma WordParts(charset: str, text: str, rest: str)
    ensures OpenWord(charset) + text + CLOSE_WORD + rest ==
            [EQUALS, QUESTION] + (charset + ([QUESTION, LETTER_Q, QUESTION] + (text + (CLOSE_WORD + rest))))
  {}

  lemma FoundParts(h: str, k: nat, charset: str, e: byte, text: str, rest: str, a: str, b: str, c: str)
    requires k + 2 <= |h| && IndexPair(h, EQUALS, QUESTION) == k && h[k + 2..] == a
    requires a == charset + b && QUESTION !in charset && b == [QUESTION, e, QUESTION] + c
    requires c == text + (CLOSE_WORD + rest) && QUESTION !in text
    ensures FindWord(h) == Some(Found(k, charset, e, text, k + 7 + |charset| + |text|))
  {
    hide IndexPair, IndexByte;
    CharsetFound(a, charset, b);
    TextFound(c, text, rest);
    PartsOf(h, k + 2, a, charset, b, e, c, text);
  }

  lemma CharsetFound(a: str, charset: str, b: str)
    requires a == charset + b && QUESTION !in charset && |b| > 0 && b[0] == QUESTION
    ensures IndexByte(a, QUESTION) == |charset| && a[..|charset|] == charset
  {
    hide IndexByte;
    DropPrefix(charset, b);
    IndexByteIs(a, QUESTION, |charset|);
  }

  lemma TextFound(c: str, text: str, rest: str)
    requires c == text + (CLOSE_WORD + rest) && QUESTION !in text
    ensures IndexPair(c, QUESTION, EQUALS) == |text| && |text| + 2 <= |c| && c[..|text|] == text
  {
    hide IndexPair;
    DropPrefix(text, CLOSE_WORD + rest);
    IndexPairIs(c, QUESTION, EQUALS, |text|);
  }

  /** The pieces of a word, as slices of the header it is in. */
  lemma PartsOf(h: str, i: nat, a: str, charset: str, b: str, e: byte, c: str, text: str)
    requires i <= |h| && h[i..] == a && a == charset + b && b == [QUESTION, e, QUESTION] + c
    requires |text| <= |c| && c[..|text|] == text
    ensures var cur := i + |charset| + 1;
            && cur + 2 + |c| == |h| && h[i..cur - 1] == charset && h[cur] == e && h[cur + 1] == QUESTION
            && h[cur + 2..] == c && h[cur + 2..cur + 2 + |text|] == text
  {
    var cur := i + |charset| + 1;
    DropPrefix(charset, b);
    assert h[cur - 1..] == a[|charset|..];
    assert h[cur] == b[1] && h[cur + 1] == b[2];
    assert h[cur + 2..] == b[3..];
    assert h[i..cur - 1] == a[..|charset|];
    assert h[cur + 2..cur + 2 + |text|] == h[cur + 2..][..|text|];
  }

  /** A word is found as it was written, also after a space. */
  lemma WordFound(charset: str, chunk: str, before: str, rest: str)
    requires IsCharset(charset) && (before == [] || before == [SPACE])
    ensures FindWord(before + Word(charset, chunk) + rest) ==
            Some(Found(|before|, charset, LETTER_Q, QString(chunk), |before| + |Word(charset, chunk)|))
  {
    hide QString, FindWord;
    var text := QString(chunk);
    var c := text + (CLOSE_WORD + rest);
    var b := [QUESTION, LETTER_Q, QUESTION] + c;
    var a := charset + b;
    var h := before + ([EQUALS, QUESTION] + a);
    WordParts(charset, text, rest);
    assert before + Word(charset, chunk) + rest == h;
    DropPrefix(before, [EQUALS, QUESTION] + a);
    QHasNoQuestion(chunk);
    assert h[|before| + 2..] == a;
    IndexPairIs(h, EQUALS, QUESTION, |before|);
    FoundParts(h, |before|, charset, LETTER_Q, text, rest, a, b, c);
  }

  lemma NoWord(d: Decoder, betweenWords: bool)
    ensures DecodedRest(d, [], betweenWords) == Some([])
  {}

  /** A word, and then the rest. */
  lemma WordDecoded(d: Decoder, charset: str, chunk: str, before: str, rest: str)
    requires IsCharset(charset) && (before == [] || before == [SPACE])
    ensures DecodedRest(d, before + Word(charset, chunk) + rest, before == [SPACE]) ==
            match Converted(d, charset, chunk)
            case None => None
            case Some(text) =>
              match DecodedRest(d, rest, true)
              case None => None
              case Some(more) => Some(text + more)
  {
    hide FindWord, QDecoded, Word, Converted;
    WordFound(charset, chunk, before, rest);
    QRoundTrip(chunk);
    var h, end := before + Word(charset, chunk) + rest, |before| + |Word(charset, chunk)|;
    assert h[end..] == rest && h[..|before|] == before;
    if Converted(d, charset, chunk).Some? {
      var text := Converted(d, charset, chunk).value;
      assert [] + text == text;
    }
  }

  lemma {:induction false} WordsDecoded(d: Decoder, charset: str, chunks: seq<str>, before: str)
    requires IsUtf8(charset) && chunks != [] && (before == [] || before == [SPACE])
    ensures DecodedRest(d, before + Words(charset, chunks), before == [SPACE]) == Some(Flatten(chunks))
    decreases |chunks|
  {
    hide Word, DecodedRest;
    Utf8IsCharset(charset);
    var w := Word(charset, chunks[0]);
    if |chunks| == 1 {
      WordDecoded(d, charset, chunks[0], before, []);
      NoWord(d, true);
      assert before + w + [] == before + w;
      assert chunks[1..] == [];
    } else {
      var rest := [SPACE] + Words(charset, chunks[1..]);
      WordsDecoded(d, charset, chunks[1..], [SPACE]);
      WordDecoded(d, charset, chunks[0], before, rest);
      assert before + w + rest == before + Words(charset, chunks);
    }
  }

  /** Decoding what was encoded gives it back, whatever the decoder does with
      base64 and with other charsets. */
  lemma RoundTrip(d: Decoder, charset: str, s: str)
    requires IsUtf8(charset) && NeedsEncoding(s)
    ensures DecodedHeader(d, Encoded(charset, s)) == Some(s)
  {
    hide DecodedRest, Chunks, Word, Flatten;
    ChunksFlatten(s, []);
    var chunks := Chunks(s, []);
    var h := Words(charset, chunks);
    WordsDecoded(d, charset, chunks, []);
    assert [] + h == h && [] + s == s;
    WordsStart(charset, chunks);
    IndexPairIs(h, EQUALS, QUESTION, 0);
    assert h[0..] == h && h[..0] == [];
  }

  lemma WordsStart(charset: str, chunks: seq<str>)
    requires chunks != []
    ensures var h := Words(charset, chunks); |h| > 1 && h[0] == EQUALS && h[1] == QUESTION
  {}

  // ----- text that needs no encoding -----

  /** Something in h looks like an encoded-word, and can be decoded. */
  predicate HasWord(d: Decoder, h: str)
    decreases |h|
  {
    match FindWord(h)
    case None => false
    case Some(f) => DecodedText(d, f.encoding, f.text).Some? || HasWord(d, h[f.start + 2..])
  }

  /** A decoder without a charset reader of its own; and base64 text is not
      shorter than what it stands for. */
  ghost predicate Standard(d: Decoder) {
    && (forall text: str :: d.base64(text).Some? ==> |d.base64(text).value| <= |text|)
    && (forall charset: str, content: str :: d.charsetReader(charset, content) == None)
  }

  lemma {:induction false} NoWordKept(d: Decoder, h: str, betweenWords: bool)
    requires !HasWord(d, h)
    ensures DecodedRest(d, h, betweenWords) == Some(h)
    decreases |h|
  {
    hide FindWord, DecodedText;
    if FindWord(h).Some? {
      var k := FindWord(h).value.start + 2;
      NoWordKept(d, h[k..], false);
      assert h == h[..k] + h[k..];
    }
  }

  /** How many bytes of s are ASCII. */
  function Ascii(s: str): (n: nat)
    ensures n <= |s|
  {
    if s == [] then 0 else (if s[0] < RUNE_SELF then 1 else 0) + Ascii(s[1..])
  }

  lemma {:induction false} AsciiConcat(a: str, b: str)
    ensures Ascii(a + b) == Ascii(a) + Ascii(b)
  {
    if a == [] {
      assert a + b == b;
    } else {
      AsciiConcat(a[1..], b);
      assert (a + b)[1..] == a[1..] + b;
    }
  }

  lemma {:induction false} AsciiAll(s: str)
    requires forall i :: 0 <= i < |s| ==> s[i] < RUNE_SELF
    ensures Ascii(s) == |s|
  {
    if s != [] { AsciiAll(s[1..]); }
  }

  lemma {:induction false} AsciiNone(s: str)
    requires forall i :: 0 <= i < |s| ==> s[i] >= RUNE_SELF
    ensures Ascii(s) == 0
  {
    if s != [] { AsciiNone(s[1..]); }
  }

  lemma EncodedAscii(c: byte)
    ensures Ascii(EncodeRune(c)) <= 1 && Ascii(EncodeRune(RUNE_ERROR)) == 0
  {
    AsciiNone(EncodeRune(RUNE_ERROR));
    if c >= RUNE_SELF { AsciiNone(EncodeRune(c)); }
  }

  /** No conversion makes more ASCII bytes than there were bytes. */
  lemma {:induction false} Latin1Ascii(content: str)
    ensures Ascii(FromLatin1(content)) <= |content|
  {
    hide EncodeRune, Ascii;
    NoAscii();
    if content != [] {
      Latin1Ascii(content[1..]);
      EncodedAscii(content[0]);
      AsciiConcat(EncodeRune(content[0]), FromLatin1(content[1..]));
    }
  }

  lemma {:induction false} AsciiAscii(content: str)
    ensures Ascii(FromAscii(content)) <= |content|
  {
    hide EncodeRune, Ascii;
    NoAscii();
    if content != [] {
      AsciiAscii(content[1..]);
      EncodedAscii(content[0]);
      AsciiConcat(if content[0] >= RUNE_SELF then EncodeRune(RUNE_ERROR) else [content[0]], FromAscii(content[1..]));
    }
  }

  lemma NoAscii()
    ensures Ascii([]) == 0
  {}

  lemma {:induction false} QDecodedLength(s: str)
    requires QDecoded(s).Some?
    ensures |QDecoded(s).value| <= |s|
    decreases |s|
  {
    if s != [] {
      if s[0] == EQUALS { QDecodedLength(s[3..]); } else { QDecodedLength(s[1..]); }
    }
  }

  lemma WordAscii(d: Decoder, f: Found)
    requires Standard(d) && DecodedText(d, f.encoding, f.text).Some?
    ensures var text := Converted(d, f.charset, DecodedText(d, f.encoding, f.text).value);
            text.Some? ==> Ascii(text.value) <= |f.text|
  {
    hide QDecoded, FromLatin1, FromAscii, ToLower, Ascii;
    var content := DecodedText(d, f.encoding, f.text).value;
    if f.encoding == 81 || f.encoding == LETTER_Q { QDecodedLength(f.text); }
    Latin1Ascii(content);
    AsciiAscii(content);
  }

  /** Decoding a word loses at least the bytes around its text. */
  lemma {:induction false} WordsLoseAscii(d: Decoder, h: str, betweenWords: bool)
    requires Standard(d) && DecodedRest(d, h, betweenWords).Some?
    ensures Ascii(DecodedRest(d, h, betweenWords).value) <= |h|
    ensures HasWord(d, h) ==> Ascii(DecodedRest(d, h, betweenWords).value) < |h|
    decreases |h|
  {
    hide FindWord, DecodedText, Converted, Ascii, HasNonWhitespace, Standard;
    if FindWord(h).Some? {
      var f := FindWord(h).value;
      if DecodedText(d, f.encoding, f.text) == None {
        var k := f.start + 2;
        WordsLoseAscii(d, h[k..], false);
        AsciiConcat(h[..k], DecodedRest(d, h[k..], false).value);
      } else {
        WordAscii(d, f);
        WordsLoseAscii(d, h[f.end..], true);
        var text := Converted(d, f.charset, DecodedText(d, f.encoding, f.text).value).value;
        var rest := DecodedRest(d, h[f.end..], true).value;
        NoAscii();
        AsciiConcat(h[..f.start] + text, rest);
        AsciiConcat(h[..f.start], text);
        AsciiConcat([] + text, rest);
        AsciiConcat([], text);
      }
    }
  }

  /** Text that needs no encoding comes back if nothing in it can be decoded as
      an encoded-word; and for a standard decoder only then. */
  lemma PlainText(d: Decoder, charset: str, s: str)
    requires !NeedsEncoding(s)
    ensures var i := IndexPair(s, EQUALS, QUESTION);
            i == -1 || !HasWord(d, s[i..]) ==> DecodedHeader(d, Encoded(charset, s)) == Some(s)
    ensures var i := IndexPair(s, EQUALS, QUESTION);
            Standard(d) ==> (DecodedHeader(d, Encoded(charset, s)) == Some(s) <==> i == -1 || !HasWord(d, s[i..]))
  {
    hide DecodedRest, HasWord, Ascii, Standard;
    var i := IndexPair(s, EQUALS, QUESTION);
    if i != -1 {
      assert s == s[..i] + s[i..];
      if !HasWord(d, s[i..]) {
        NoWordKept(d, s[i..], false);
      } else if Standard(d) && DecodedRest(d, s[i..], false).Some? {
        WordsLoseAscii(d, s[i..], false);
        AsciiAll(s);
        AsciiConcat(s[..i], DecodedRest(d, s[i..], false).value);
      }
    }
  }

  lemma WordOfA()
    ensures var s := Word(UTF_8, [65]);
            !NeedsEncoding(s) && |s| == 13 && s[0] == EQUALS && s[1] == QUESTION && QString([65]) == [65]
  {
    QCons(65, []);
    assert [65] + [] == [65];
    assert Word(UTF_8, [65]) == [EQUALS, QUESTION, 117, 116, 102, 45, 56, QUESTION, LETTER_Q, QUESTION, 65, QUESTION, EQUALS];
  }

  lemma PlainTextDecoded(d: Decoder)
    ensures var s := Word(UTF_8, [65]);
            !NeedsEncoding(s) && DecodedHeader(d, Encoded(UTF_8, s)) == Some([65])
  {
    hide Word, DecodedRest, NeedsEncoding;
    var s := Word(UTF_8, [65]);
    WordOfA();
    LowerUtf8();
    Utf8IsCharset(UTF_8);
    IndexPairIs(s, EQUALS, QUESTION, 0);
    WordDecoded(d, UTF_8, [65], [], []);
    NoWord(d, true);
    assert [] + s + [] == s && s[0..] == s && s[..0] == [] && [65] + [] == [65] && [] + [65] == [65];
  }
}
