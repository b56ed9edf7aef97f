/** src/mime/mediatype.go: parameters written in pieces, section 3 of RFC 2231,
    and what is rejected. */
module MediaTypePieces {
  import opened Basics
  import opened Utf8
  import opened BufioSplit
  import opened MediaType

  // ----- pieces -----

  /** A part of a value, and whether it is written percent-encoded. */
  datatype Chunk = Chunk(text: str, encoded: bool)

  /** An empty value can be written encoded only with the charset before it. */
  predicate Writable(c: Chunk, n: nat) {
    if c.encoded then n == 0 || c.text != [] else !NeedsEncoding(c.text)
  }

  function Prefix(n: nat): str { if n == 0 then UTF8_PREFIX else [] }

  function ChunkKey(a: str, n: nat, c: Chunk): str { PieceName(a, n, c.encoded) }

  function ChunkWritten(n: nat, c: Chunk): str {
    if c.encoded then Prefix(n) + PercentEncoded(c.text) else if IsToken(c.text) then c.text else Quoted(c.text)
  }

  function ChunkRaw(n: nat, c: Chunk): str { if c.encoded then Prefix(n) + PercentEncoded(c.text) else c.text }

  /** Numbers of chunks. */
  predicate Numbers(order: seq<nat>, chunks: seq<Chunk>) { forall j :: 0 <= j < |order| ==> order[j] < |chunks| }

  /** The pieces of parameter a with the numbers in order. */
  function PiecesText(a: str, chunks: seq<Chunk>, order: seq<nat>): str
    requires Numbers(order, chunks)
  {
    if order == [] then []
    else
      var n := order[0];
      Laid(ChunkKey(a, n, chunks[n]), ChunkWritten(n, chunks[n])) + PiecesText(a, chunks, order[1..])
  }

  /** The texts of the chunks from n up to k. */
  function Texts(chunks: seq<Chunk>, n: nat, k: nat): str
    requires n <= k <= |chunks|
    decreases k - n
  {
    if n == k then [] else chunks[n].text + Texts(chunks, n + 1, k)
  }

  lemma {:induction false} DecimalDigits(n: nat)
    ensures forall c :: c in Decimal(n) ==> 48 <= c <= 57
  {
    if n >= 10 { DecimalDigits(n / 10); }
  }

  lemma LowerSame(s: str)
    requires forall c :: c in s ==> Lower(c) == c
    ensures ToLower(s) == s
  {
    ToLowerIs(s);
    assert forall i :: 0 <= i < |s| ==> s[i] in s;
  }

  lemma KeyIsName(a: str, n: nat, starred: bool)
    requires IsName(a)
    ensures var key := PieceName(a, n, starred);
            && IsToken(key) && ToLower(key) == key && IndexByte(key, STAR) == |a| && key[..|a|] == a && key != a + [STAR]
  {
    hide Decimal, ToLower;
    var key := PieceName(a, n, starred);
    DecimalDigits(n);
    DecimalLast(n);
    var tail := [STAR] + Decimal(n) + if starred then [STAR] else [];
    assert key == a + tail;
    ToLowerConcat(a, tail);
    LowerSame(tail);
    assert key[..|a|] == a && key[|a|] == STAR;
    IndexByteIs(key, STAR, |a|);
    DigitsAreTokens(Decimal(n));
    assert AllTokenChars(key);
  }

  lemma DigitsAreTokens(s: str)
    requires forall c :: c in s ==> 48 <= c <= 57
    ensures AllTokenChars(s)
  {
    assert forall i :: 0 <= i < |s| ==> s[i] in s;
  }

  lemma ChunkReadable(a: str, n: nat, c: Chunk, rest: str)
    requires IsName(a) && Writable(c, n) && (rest == [] || rest[0] == SEMICOLON)
    ensures Readable(ChunkKey(a, n, c), ChunkWritten(n, c), ChunkRaw(n, c), rest)
  {
    hide PieceName, IsName, ConsumeValue, PercentEncoded, Quoted, ToLower;
    KeyIsName(a, n, c.encoded);
    if c.encoded {
      EncodedReadable(n, c, rest);
    } else if IsToken(c.text) {
      TokenRead(c.text, rest);
    } else {
      QuotedValueRead(c.text, rest);
    }
  }

  lemma EncodedReadable(n: nat, c: Chunk, rest: str)
    requires c.encoded && Writable(c, n) && (rest == [] || rest[0] == SEMICOLON)
    ensures var w := Prefix(n) + PercentEncoded(c.text);
            StartsVisibly(w) && ConsumeValue(w + rest) == (w, rest)
  {
    if n == 0 {
      EncodedRead(c.text, rest);
    } else {
      PercentRoundTrip(c.text);
      var w := PercentEncoded(c.text);
      assert Prefix(n) + w == w && w != [];
      hide PercentEncoded;
      TokenRead(w, rest);
    }
  }

  /** The pieces, added to what has been read. */
  function PiecesRead(a: str, chunks: seq<Chunk>, order: seq<nat>, r: Read): Read
    requires Numbers(order, chunks)
  {
    if order == [] then r
    else
      var n := order[0];
      PiecesRead(a, chunks, order[1..], WithPiece(a, n, chunks[n], r))
  }

  function WithPiece(a: str, n: nat, c: Chunk, r: Read): Read {
    r.(pieces := r.pieces[a := Pieces(r, a)[ChunkKey(a, n, c) := ChunkRaw(n, c)]])
  }

  /** None of the pieces in order has been read. */
  predicate NoneRead(a: str, chunks: seq<Chunk>, order: seq<nat>, r: Read) {
    forall j :: 0 <= j < |order| ==> order[j] < |chunks| && ChunkKey(a, order[j], chunks[order[j]]) !in Pieces(r, a)
  }

  predicate DistinctNumbers(order: seq<nat>) { forall i, j :: 0 <= i < j < |order| ==> order[i] != order[j] }

  lemma TextStarts(a: str, chunks: seq<Chunk>, order: seq<nat>)
    requires Numbers(order, chunks)
    ensures var text := PiecesText(a, chunks, order); text == [] || text[0] == SEMICOLON
  {}

  lemma AddedPiece(a: str, n: nat, c: Chunk, r: Read)
    requires IsName(a) && ChunkKey(a, n, c) !in Pieces(r, a)
    ensures Added(r, ChunkKey(a, n, c), ChunkRaw(n, c)) == Some(WithPiece(a, n, c, r))
  {
    hide PieceName, IsName, ToLower;
    KeyIsName(a, n, c.encoded);
  }

  lemma KeysDiffer(a: str, i: nat, x: bool, n: nat, y: bool)
    requires i != n
    ensures PieceName(a, i, x) != PieceName(a, n, y)
  {
    if PieceName(a, i, x) == PieceName(a, n, y) { PieceNumber(a, i, x, n, y); }
  }

  lemma OthersUnread(a: str, chunks: seq<Chunk>, order: seq<nat>, r: Read)
    requires order != [] && DistinctNumbers(order) && NoneRead(a, chunks, order, r)
    ensures NoneRead(a, chunks, order[1..], WithPiece(a, order[0], chunks[order[0]], r))
  {
    hide PieceName;
    var n, tail := order[0], order[1..];
    forall j | 0 <= j < |tail|
      ensures tail[j] < |chunks| && ChunkKey(a, tail[j], chunks[tail[j]]) != ChunkKey(a, n, chunks[n])
    {
      var i := tail[j];
      assert i == order[j + 1] != n;
      KeysDiffer(a, i, chunks[i].encoded, n, chunks[n].encoded);
    }
  }

  lemma {:induction false} PiecesParsed(a: str, chunks: seq<Chunk>, order: seq<nat>, r: Read)
    requires IsName(a) && DistinctNumbers(order) && NoneRead(a, chunks, order, r)
    requires forall j :: 0 <= j < |order| ==> Writable(chunks[order[j]], order[j])
    ensures ParsedParams(PiecesText(a, chunks, order), r) == Params(PiecesRead(a, chunks, order, r))
    decreases |order|
  {
    hide IsName, ParsedParams, Added, Readable, ChunkKey, ChunkRaw, ChunkWritten, Writable;
    if order == [] {
      LastRead([], r);
    } else {
      var n, rest := order[0], PiecesText(a, chunks, order[1..]);
      TextStarts(a, chunks, order[1..]);
      ChunkReadable(a, n, chunks[n], rest);
      LaidStep(ChunkKey(a, n, chunks[n]), ChunkWritten(n, chunks[n]), ChunkRaw(n, chunks[n]), rest, r);
      AddedPiece(a, n, chunks[n], r);
      OthersUnread(a, chunks, order, r);
      PiecesParsed(a, chunks, order[1..], WithPiece(a, n, chunks[n], r));
    }
  }

  /** What has been read in the end. */
  lemma {:induction false} PiecesAre(a: str, chunks: seq<Chunk>, order: seq<nat>, r: Read, n: nat, starred: bool)
    requires DistinctNumbers(order) && Numbers(order, chunks)
    ensures var q := PiecesRead(a, chunks, order, r); var name := PieceName(a, n, starred);
            var written := n in order && n < |chunks| && starred == chunks[n].encoded;
            && (name in Pieces(q, a) <==> name in Pieces(r, a) || written)
            && (written ==> Pieces(q, a)[name] == ChunkRaw(n, chunks[n]))
            && (name in Pieces(r, a) && n !in order ==> Pieces(q, a)[name] == Pieces(r, a)[name])
    decreases |order|
  {
    hide PieceName, ChunkRaw;
    if order != [] {
      var i, tail := order[0], order[1..];
      var r' := WithPiece(a, i, chunks[i], r);
      PiecesAre(a, chunks, tail, r', n, starred);
      assert n in order <==> n == i || n in tail;
      if n == i {
        assert n !in tail;
        OneSpelling(a, n);
      } else {
        KeysDiffer(a, n, starred, i, chunks[i].encoded);
      }
    }
  }

  lemma OneSpelling(a: str, n: nat)
    ensures PieceName(a, n, true) != PieceName(a, n, false)
  {
    DropStar(a, n, true);
    DropStar(a, n, false);
  }

  lemma {:induction false} OnlyPieces(a: str, chunks: seq<Chunk>, order: seq<nat>, r: Read)
    requires Numbers(order, chunks) && IsName(a)
    ensures var q := PiecesRead(a, chunks, order, r);
            && q.params == r.params && (order != [] ==> q.pieces.Keys == r.pieces.Keys + {a})
            && (a + [STAR] !in Pieces(r, a) ==> a + [STAR] !in Pieces(q, a))
    decreases |order|
  {
    hide PieceName, ChunkRaw, IsName;
    if order != [] {
      KeyIsName(a, order[0], chunks[order[0]].encoded);
      OnlyPieces(a, chunks, order[1..], WithPiece(a, order[0], chunks[order[0]], r));
    }
  }

  /** The pieces 0 to k - 1, each in one spelling, and none with number k. */
  ghost predicate Holds(a: str, m: map<str, str>, chunks: seq<Chunk>, k: nat) {
    && k <= |chunks| && !HasPiece(a, m, k)
    && forall n: nat :: n < k ==>
         && ChunkKey(a, n, chunks[n]) in m && m[ChunkKey(a, n, chunks[n])] == ChunkRaw(n, chunks[n])
         && PieceName(a, n, !chunks[n].encoded) !in m
  }

  lemma HasOne(a: str, m: map<str, str>, n: nat, c: Chunk)
    requires ChunkKey(a, n, c) in m
    ensures HasPiece(a, m, n)
  {
    if c.encoded { assert PieceName(a, n, true) in m; }
  }

  lemma ContinuedStep(a: str, m: map<str, str>, c: Chunk, n: nat)
    requires ChunkKey(a, n, c) in m && m[ChunkKey(a, n, c)] == ChunkRaw(n, c) && PieceName(a, n, !c.encoded) !in m
    requires n <= |m|
    ensures Continued(a, m, n) == Some(c.text + match Continued(a, m, n + 1) case None => [] case Some(rest) => rest)
  {
    hide Decimal, Decode2231, PercentDecoded, PercentEncoded;
    assert PieceName(a, n, true) == PieceName(a, n, false) + [STAR];
    assert PieceName(a, n, false) == a + [STAR] + Decimal(n);
    Decode2231RoundTrip(c.text);
    PercentRoundTrip(c.text);
    assert [] + PercentEncoded(c.text) == PercentEncoded(c.text);
    assert c.text + [] == c.text;
  }

  lemma ContinuedEnd(a: str, m: map<str, str>, n: nat)
    requires !HasPiece(a, m, n)
    ensures Continued(a, m, n) == None
  {
    hide Decimal;
    assert PieceName(a, n, true) == PieceName(a, n, false) + [STAR];
    assert PieceName(a, n, false) == a + [STAR] + Decimal(n);
  }

  lemma {:induction false} ContinuedIs(a: str, m: map<str, str>, chunks: seq<Chunk>, n: nat, k: nat)
    requires Holds(a, m, chunks, k) && n <= k
    ensures Continued(a, m, n) == if n == k then None else Some(Texts(chunks, n, k))
    decreases k - n
  {
    hide Continued, PieceName, ChunkRaw, HasPiece;
    if n < k {
      forall i: nat | i < k
        ensures HasPiece(a, m, i)
      {
        HasOne(a, m, i, chunks[i]);
      }
      PiecesAreFew(a, m, k);
      ContinuedIs(a, m, chunks, n + 1, k);
      ContinuedStep(a, m, chunks[n], n);
      assert chunks[n].text + [] == chunks[n].text;
    } else {
      ContinuedEnd(a, m, n);
    }
  }

  lemma PiecesHold(a: str, chunks: seq<Chunk>, order: seq<nat>, k: nat)
    requires DistinctNumbers(order) && Numbers(order, chunks)
    requires k <= |chunks| && k !in order && forall i: nat :: i < k ==> i in order
    ensures Holds(a, Pieces(PiecesRead(a, chunks, order, NOTHING_READ), a), chunks, k)
  {
    hide PieceName, ChunkRaw, PiecesRead;
    var m := Pieces(PiecesRead(a, chunks, order, NOTHING_READ), a);
    forall n: nat, starred: bool
      ensures PieceName(a, n, starred) in m ==> n in order && n < |chunks| && starred == chunks[n].encoded
      ensures n < k && starred == chunks[n].encoded ==>
                PieceName(a, n, starred) in m && m[PieceName(a, n, starred)] == ChunkRaw(n, chunks[n])
    {
      PiecesAre(a, chunks, order, NOTHING_READ, n, starred);
    }
  }

  /** A parameter written in pieces is read back whole: the pieces before the
      first number that is missing, in whatever order they were written, each
      decoded if it was encoded; and not at all if number 0 is missing. */
  lemma PiecesRoundTrip(fold: Folding, t: str, a: str, chunks: seq<Chunk>, order: seq<nat>, k: nat)
    requires FoldsAscii(fold) && IsType(t) && IsName(a) && DistinctNumbers(order) && order != []
    requires Numbers(order, chunks) && forall j :: 0 <= j < |order| ==> Writable(chunks[order[j]], order[j])
    requires k <= |chunks| && k !in order && forall i: nat :: i < k ==> i in order
    ensures ParsedType(fold, t + PiecesText(a, chunks, order)) ==
            Parsed(ToLower(t), if k == 0 then map[] else map[a := Texts(chunks, 0, k)])
  {
    hide IsType, IsName, ToLower, IsDisposition, ParsedParams, PiecesRead, PiecesText, TrimLeft, TrimRight, FoldsAscii,
      Continued, Writable, PieceName, Holds;
    var text := PiecesText(a, chunks, order);
    TextStarts(a, chunks, order);
    TypeParsed(fold, t, text);
    PiecesParsed(a, chunks, order, NOTHING_READ);
    PiecesHold(a, chunks, order, k);
    var q := PiecesRead(a, chunks, order, NOTHING_READ);
    OnlyPieces(a, chunks, order, NOTHING_READ);
    ContinuedIs(a, Pieces(q, a), chunks, 0, k);
    assert Merged(q) == if k == 0 then map[] else map[a := Texts(chunks, 0, k)];
  }

  /** Of two spellings of one piece, the plain one counts. */
  lemma PlainPieceWins(a: str, m: map<str, str>, n: nat)
    requires PieceName(a, n, false) in m && n <= |m|
    ensures Continued(a, m, n) == Some(m[PieceName(a, n, false)] +
                                       match Continued(a, m, n + 1) case None => [] case Some(rest) => rest)
  {
    hide Decimal, Decode2231, PercentDecoded;
    assert PieceName(a, n, false) == a + [STAR] + Decimal(n);
    var text := m[PieceName(a, n, false)];
    assert text + [] == text;
  }

  /** A piece that cannot be decoded counts as an empty one. */
  lemma BadPieceIsEmpty(a: str, m: map<str, str>, n: nat)
    requires PieceName(a, n, true) in m && PieceName(a, n, false) !in m && n <= |m|
    requires var v := m[PieceName(a, n, true)]; (if n == 0 then Decode2231(v) else PercentDecoded(v)) == None
    ensures Continued(a, m, n) == Some(match Continued(a, m, n + 1) case None => [] case Some(rest) => rest)
  {
    hide Decimal, Decode2231, PercentDecoded;
    assert PieceName(a, n, true) == PieceName(a, n, false) + [STAR];
    assert PieceName(a, n, false) == a + [STAR] + Decimal(n);
    var later := Continued(a, m, n + 1);
    if later.Some? { assert [] + later.value == later.value; }
  }

  /** An extended value that cannot be decoded is dropped; a plain parameter of
      the same name, or none, is what there is. */
  lemma BadValueIsDropped(r: Read, a: str)
    requires a in r.pieces && a + [STAR] in r.pieces[a] && Decode2231(r.pieces[a][a + [STAR]]) == None
    ensures a in Merged(r) <==> a in r.params
    ensures a in r.params ==> Merged(r)[a] == r.params[a]
  {
    hide Decode2231;
  }

  /** The type before the first semicolon, in whatever case. */
  lemma TypeParsed(fold: Folding, t: str, rest: str)
    requires FoldsAscii(fold) && IsType(t) && (rest == [] || rest[0] == SEMICOLON)
    ensures ParsedType(fold, t + rest) ==
            match ParsedParams(rest, NOTHING_READ)
            case Bad(InvalidParameter) => Failed(InvalidParameter, ToLower(t))
            case Bad(e) => Failed(e, [])
            case Trailing(r) => Parsed(ToLower(t), r.params)
            case Params(r) => Parsed(ToLower(t), Merged(r))
  {
    hide IsType, ToLower, IsDisposition, ParsedParams, TrimLeft, TrimRight, Merged;
    TypeVisible(t);
    TypeKept(t);
    TypeSplit(t, rest);
  }

  /** Of a plain and an extended value of one parameter, the extended one counts:
      the plain one is for readers that do not know the other. */
  lemma ExtendedWins(fold: Folding, t: str, a: str, plain: str, value: str, plainFirst: bool)
    requires FoldsAscii(fold) && IsType(t) && IsName(a) && !NeedsEncoding(plain) && NeedsEncoding(value)
    ensures var x, y := FormattedParam(a, plain), FormattedParam(a, value);
            ParsedType(fold, t + if plainFirst then x + y else y + x) == Parsed(ToLower(t), map[a := value])
  {
    hide IsType, IsName, ToLower, ParsedParams, NeedsEncoding, FoldsAscii, ParsedType, RawValue, WrittenValue, Stitched,
      WrittenKey, FormattedParam;
    var first, second := if plainFirst then plain else value, if plainFirst then value else plain;
    var r1 := One(a, first, NOTHING_READ);
    var x, y := FormattedParam(a, first), FormattedParam(a, second);
    ParamStarts(a, first);
    ParamStarts(a, second);
    assert y + [] == y;
    TypeParsed(fold, t, x + y);
    OneRead(a, first, y, NOTHING_READ);
    OneRead(a, second, [], r1);
    LastRead([], One(a, second, r1));
    StitchedPiece(a, value);
    assert Merged(One(a, second, r1)) == map[a := value];
  }

  function One(a: str, value: str, r: Read): Read {
    if NeedsEncoding(value) then r.(pieces := r.pieces[a := map[a + [STAR] := RawValue(value)]])
    else r.(params := r.params[a := value])
  }

  lemma ParamStarts(a: str, value: str)
    requires IsName(a)
    ensures var x := FormattedParam(a, value); x != [] && x[0] == SEMICOLON
  {}

  lemma OneRead(a: str, value: str, rest: str, r: Read)
    requires IsName(a) && (rest == [] || rest[0] == SEMICOLON)
    requires if NeedsEncoding(value) then a !in r.pieces else a !in r.params
    ensures ParsedParams(FormattedParam(a, value) + rest, r) == ParsedParams(rest, One(a, value, r))
  {
    hide IsName, ToLower, ParsedParams, NeedsEncoding, WrittenValue, FormattedParam;
    FirstRead(a, value, rest, r);
    KeyOfName(a, value);
    if NeedsEncoding(value) {
      var key := WrittenKey(a, value);
      assert Pieces(r, a)[key := RawValue(value)] == map[key := RawValue(value)];
    }
  }

  // ----- what is written -----

  /** Something is written exactly if the type and all names are lawful. */
  lemma {:induction false} FormattedIff(attrs: seq<str>, param: map<str, str>)
    requires forall a :: a in attrs ==> a in param
    ensures FormattedParams(attrs, param).Some? <==> forall i :: 0 <= i < |attrs| ==> IsToken(attrs[i])
  {
    hide FormattedParam, IsToken;
    if attrs != [] {
      FormattedIff(attrs[1..], param);
      if FormattedParams(attrs, param).Some? {
        forall i | 0 <= i < |attrs|
          ensures IsToken(attrs[i])
        {
          if i > 0 { assert attrs[1..][i - 1] == attrs[i]; }
        }
      }
    }
  }

  lemma WrittenIff(t: str, attrs: seq<str>, param: map<str, str>)
    requires forall a :: a in attrs ==> a in param
    ensures Formatted(t, attrs, param).Some? <==> IsType(t) && forall i :: 0 <= i < |attrs| ==> IsToken(attrs[i])
  {
    hide FormattedParams, IsType, IsToken;
    FormattedIff(attrs, param);
  }

  /** A byte that may stand in a header line. */
  predicate Printable(c: byte) { 0x20 <= c <= 0x7E || c == 9 }

  predicate AllPrintable(s: str) { forall i :: 0 <= i < |s| ==> Printable(s[i]) }

  lemma {:induction false} EscapesPrintable(value: str)
    requires AllPrintable(value)
    ensures AllPrintable(Escapes(value))
  {
    if value != [] {
      assert Printable(value[0]);
      assert forall i :: 0 <= i < |value[1..]| ==> value[1..][i] == value[i + 1];
      EscapesPrintable(value[1..]);
    }
  }

  /** Every value is written in printable ASCII, a token just as it is; and it is
      written encoded only if it has a byte that is not printable. */
  lemma WrittenLawfully(a: str, value: str)
    requires IsName(a)
    ensures AllPrintable(WrittenKey(a, value)) && AllPrintable(WrittenValue(value))
    ensures IsToken(value) ==> WrittenValue(value) == value && WrittenKey(a, value) == a
    ensures !AllPrintable(value) <==> WrittenKey(a, value) == a + [STAR]
  {
    hide PercentEncoded, Quoted, ToLower, IsTokenChar;
    Needs(value);
    assert a != a + [STAR];
    TokensPrintable(a);
    if NeedsEncoding(value) {
      PercentRoundTrip(value);
      TokensPrintable(PercentEncoded(value));
    } else {
      QuotedPrintable(value);
    }
    if IsToken(value) { TokensPrintable(value); }
  }

  lemma Needs(value: str)
    ensures NeedsEncoding(value) <==> !AllPrintable(value)
  {}

  lemma TokensPrintable(s: str)
    requires AllTokenChars(s)
    ensures AllPrintable(s)
  {}

  lemma QuotedPrintable(value: str)
    requires AllPrintable(value)
    ensures AllPrintable(Quoted(value))
  {
    hide Escapes;
    EscapesPrintable(value);
  }

  // ----- parameters as others write them -----

  predicate Blank(sp: str) { forall i :: 0 <= i < |sp| ==> sp[i] in {9, 10, 11, 12, 13, 32} }

  lemma {:induction false} BlankTrimmed(sp: str, s: str)
    requires Blank(sp) && StartsVisibly(s)
    ensures TrimLeft(sp + s) == s
    decreases |sp|
  {
    if sp == [] {
      NoSpace(s);
      assert sp + s == s;
    } else {
      BlankTrimmed(sp[1..], s);
      assert (sp + s)[1..] == sp[1..] + s;
      BlankFirst(sp + s);
    }
  }

  lemma BlankFirst(s: str)
    requires s != [] && s[0] in {9, 10, 11, 12, 13, 32}
    ensures TrimLeft(s) == TrimLeft(s[1..])
  {
    assert DecodeRune(s) == (s[0] as int, 1);
    assert Skip(s) == 1 + Skip(s[1..]);
  }

  /** There may be space before and after the semicolon and the equals sign, and
      the name may be in any case. */
  lemma SpacedRead(s1: str, s2: str, s3: str, s4: str, key: str, written: str, raw: str, rest: str)
    requires Blank(s1) && Blank(s2) && Blank(s3) && Blank(s4) && IsToken(key)
    requires StartsVisibly(written) && ConsumeValue(written + rest) == (raw, rest)
    ensures ConsumeMediaParam(s1 + ([SEMICOLON] + (s2 + (key + (s3 + ([EQUALS] + (s4 + (written + rest)))))))) ==
            (ToLower(key), raw, rest)
  {
    hide ConsumeToken, ConsumeValue, TrimLeft, ToLower, Blank;
    var d := written + rest;
    var c := [EQUALS] + (s4 + d);
    var b := key + (s3 + c);
    var a := [SEMICOLON] + (s2 + b);
    BlankTrimmed(s1, a);
    assert a[1..] == s2 + b;
    BlankTrimmed(s2, b);
    NotInToken(s3, c);
    TokenStops(key, s3 + c);
    BlankTrimmed(s3, c);
    assert c[1..] == s4 + d;
    BlankTrimmed(s4, d);
  }

  lemma NotInToken(sp: str, c: str)
    requires Blank(sp) && c != [] && !IsTokenChar(c[0])
    ensures !IsTokenChar((sp + c)[0])
  {
    if sp != [] { assert (sp + c)[0] == sp[0]; }
  }

  lemma {:induction false} BlankEnd(sp: str)
    requires Blank(sp)
    ensures Skip(sp) == |sp| && TrimRight(sp) == []
    decreases |sp|
  {
    if sp != [] {
      BlankEnd(sp[1..]);
      assert DecodeRune(sp) == (sp[0] as int, 1);
    }
  }

  lemma {:induction false} TrimmedRight(s: str, sp: str)
    requires Blank(sp) && forall i :: 0 <= i < |s| ==> 0x20 < s[i] < 0x7F
    ensures TrimRight(s + sp) == s
    decreases |s|
  {
    hide Blank;
    if s == [] {
      BlankEnd(sp);
      assert s + sp == sp;
    } else {
      TrimmedRight(s[1..], sp);
      assert (s + sp)[1..] == s[1..] + sp;
      assert DecodeRune(s + sp).1 == 1 && Skip(s + sp) == 0;
      assert s == s[..1] + s[1..] && (s + sp)[..1] == s[..1];
    }
  }

  lemma LowerBlank(sp: str)
    requires Blank(sp)
    ensures ToLower(sp) == sp
  {
    ToLowerIs(sp);
  }

  lemma LowerOfBlank(s1: str, t: str, s2: str)
    requires Blank(s1) && Blank(s2)
    ensures ToLower(s1 + t + s2) == s1 + (ToLower(t) + s2)
  {
    hide ToLower, Blank;
    ToLowerConcat(s1 + t, s2);
    ToLowerConcat(s1, t);
    LowerBlank(s1);
    LowerBlank(s2);
  }

  lemma FoldedTrimmed(fold: Folding, s1: str, t: str, s2: str)
    requires FoldsAscii(fold) && IsType(t) && Blank(s1) && Blank(s2)
    ensures TrimRight(TrimLeft(fold(s1 + t + s2))) == ToLower(t) && SEMICOLON !in s1 + t + s2
  {
    hide IsType, ToLower, TrimLeft, TrimRight, Blank;
    TypeVisible(t);
    BlankBytes(s1);
    BlankBytes(s2);
    var u, l := s1 + t + s2, ToLower(t);
    assert forall i :: 0 <= i < |u| ==> u[i] < 0x80 && u[i] != SEMICOLON;
    LowerOfBlank(s1, t, s2);
    ToLowerIs(t);
    TypeNotEmpty(t);
    BlankTrimmed(s1, l + s2);
    TrimmedRight(l, s2);
  }

  /** Space around the type does not matter. */
  lemma TypeTrimmed(fold: Folding, s1: str, t: str, s2: str, rest: str)
    requires FoldsAscii(fold) && IsType(t) && Blank(s1) && Blank(s2) && (rest == [] || rest[0] == SEMICOLON)
    ensures ParsedType(fold, s1 + t + s2 + rest) == ParsedType(fold, t + rest)
  {
    hide IsType, ToLower, IsDisposition, ParsedParams, TrimLeft, TrimRight, Merged, FoldsAscii, Blank;
    FoldedTrimmed(fold, s1, t, s2);
    TypeSplit(s1 + t + s2, rest);
    TypeVisible(t);
    TypeSplit(t, rest);
    TypeParsed(fold, t, rest);
    TypeKept(t);
  }

  lemma BlankBytes(sp: str)
    requires Blank(sp)
    ensures forall i :: 0 <= i < |sp| ==> sp[i] < 0x80 && sp[i] != SEMICOLON
  {}

  lemma TypeNotEmpty(t: str)
    requires IsType(t)
    ensures t != []
  {}

  // ----- quoted strings as others write them -----

  /** What a quoted string is made of: a byte that stands for itself, or a
      special character after a backslash. */
  datatype Item = Itself(c: byte) | Escaped(c: byte)

  function ItemBytes(i: Item): str { if i.Escaped? then [BACKSLASH, i.c] else [i.c] }

  function ItemsBytes(items: seq<Item>): str {
    if items == [] then [] else ItemBytes(items[0]) + ItemsBytes(items[1..])
  }

  function ItemsText(items: seq<Item>): str { if items == [] then [] else [items[0].c] + ItemsText(items[1..]) }

  /** A quote and the ends of lines need a backslash or cannot be there; a
      backslash stands for itself only where nothing special follows it. */
  predicate Lawful(items: seq<Item>, next: byte) {
    items == [] ||
    (Lawful(items[1..], next) && LawfulItem(items[0], if |items| == 1 then next else ItemBytes(items[1])[0]))
  }

  predicate LawfulItem(i: Item, follows: byte) {
    if i.Escaped? then IsTSpecial(i.c)
    else i.c != QUOTE && i.c != CR && i.c != LF && (i.c == BACKSLASH ==> !IsTSpecial(follows))
  }

  function First(s: str): byte { if s == [] then 0 else s[0] }

  lemma ItemRead(i: Item, tail: str, read: str)
    requires LawfulItem(i, First(tail))
    ensures ConsumeQuoted(ItemBytes(i) + tail, read) == ConsumeQuoted(tail, read + [i.c])
  {
    var v := ItemBytes(i) + tail;
    assert v[|ItemBytes(i)|..] == tail;
  }

  lemma EndRead(end: str, read: str)
    requires end == [] || end[0] == QUOTE || end[0] == CR || end[0] == LF
    ensures ConsumeQuoted(end, read) == if end != [] && end[0] == QUOTE then Some((read, end[1..])) else None
  {}

  lemma StartOf(x: str, y: str, end: str)
    requires x != []
    ensures First(x + y + end) == x[0]
  {}

  lemma ItemsStart(items: seq<Item>, end: str)
    ensures First(ItemsBytes(items) + end) == if items == [] then First(end) else ItemBytes(items[0])[0]
  {
    if items == [] {
      assert [] + end == end;
    } else {
      StartOf(ItemBytes(items[0]), ItemsBytes(items[1..]), end);
    }
  }

  /** Every quoted string is read as the characters it stands for, up to its
      closing quote; if a line or the input ends before that, it is none. */
  lemma {:induction false} QuotedItemsRead(items: seq<Item>, end: str, read: str)
    requires Lawful(items, First(end))
    requires end == [] || end[0] == QUOTE || end[0] == CR || end[0] == LF
    ensures ConsumeQuoted(ItemsBytes(items) + end, read) ==
            if end != [] && end[0] == QUOTE then Some((read + ItemsText(items), end[1..])) else None
    decreases |items|
  {
    hide IsTSpecial, ConsumeQuoted, ItemBytes, LawfulItem;
    if items == [] {
      assert ItemsBytes(items) + end == end && read + [] == read;
      EndRead(end, read);
    } else {
      var i, rest := items[0], items[1..];
      var tail := ItemsBytes(rest) + end;
      ItemsStart(rest, end);
      QuotedItemsRead(rest, end, read + [i.c]);
      assert read + [i.c] + ItemsText(rest) == read + ItemsText(items);
      assert ItemsBytes(items) + end == ItemBytes(i) + tail;
      ItemRead(i, tail, read);
    }
  }

  // ----- what is rejected -----

  /** A type is a token, or two with a slash between them; anything else before
      the semicolon is no media type. */
  lemma DispositionIsType(s: str)
    ensures IsDisposition(s) <==> IsType(s)
  {
    hide ToLower;
    var n := TokenLength(s);
    assert s == s[..n] + s[n..];
    var slash := IndexByte(s, SLASH);
    if slash == -1 {
      if n == |s| { assert s[..n] == s; }
      if IsToken(s) { TokenStops(s, []); assert s + [] == s; }
    } else {
      assert s[slash] == SLASH && !IsTokenChar(SLASH);
      BeforeSlash(s, n, slash);
      if IsToken(s[..slash]) { TokenStops(s[..slash], s[slash..]); assert s == s[..slash] + s[slash..]; }
      if n < |s| && s[n] == SLASH { assert SLASH !in s[..n] by { TokenHasNoSlash(s[..n]); } IndexByteIs(s, SLASH, n); }
    }
  }

  lemma BeforeSlash(s: str, n: nat, slash: nat)
    requires n <= |s| && slash < |s| && s[slash] == SLASH && AllTokenChars(s[..n])
    ensures n <= slash
  {
    var token := s[..n];
    assert forall i :: 0 <= i < n ==> token[i] == s[i];
  }

  lemma TokenHasNoSlash(s: str)
    requires AllTokenChars(s)
    ensures SLASH !in s
  {}

  /** A parameter given twice in the same form is rejected, and then nothing is
      returned. */
  lemma DuplicateRejected(fold: Folding, t: str, attrs: seq<str>, param: map<str, str>, a: str, value: str, rest: str)
    requires FoldsAscii(fold) && IsType(t) && Lists(attrs, param) && forall b :: b in param ==> IsName(b)
    requires a in param && (NeedsEncoding(value) <==> NeedsEncoding(param[a])) && (rest == [] || rest[0] == SEMICOLON)
    ensures FormattedParams(attrs, param).Some?
    ensures ParsedType(fold, t + (FormattedParams(attrs, param).value + (FormattedParam(a, value) + rest))) ==
            Failed(DuplicateParameter, [])
  {
    hide IsType, IsName, ToLower, FormattedParams, ParsedParams, ReadOf, NeedsEncoding, FoldsAscii, ParsedType, RawValue,
      WrittenValue;
    var end := FormattedParam(a, value) + rest;
    ParamsRead(attrs, param, NOTHING_READ, end);
    FormattedStarts(attrs, param, end);
    TypeParsed(fold, t, FormattedParams(attrs, param).value + end);
    var q := ReadOf(attrs, param, NOTHING_READ);
    ReadOfHas(attrs, param, NOTHING_READ, a);
    FirstRead(a, value, rest, q);
    KeyOfName(a, value);
  }

  lemma KeyOfName(a: str, value: str)
    requires IsName(a)
    ensures var key := WrittenKey(a, value);
            if NeedsEncoding(value) then key == a + [STAR] && IndexByte(key, STAR) == |a| && key[..|a|] == a
            else key == a && IndexByte(key, STAR) == -1
  {
    hide NeedsEncoding;
    var key := a + [STAR];
    assert key[..|a|] == a;
    IndexByteIs(key, STAR, |a|);
  }

  /** A parameter without a name or without an equals sign is an error, and the
      media type is returned with it. */
  lemma InvalidRejected(fold: Folding, t: str, attrs: seq<str>, param: map<str, str>, name: str, rest: str)
    requires FoldsAscii(fold) && IsType(t) && Lists(attrs, param) && forall b :: b in param ==> IsName(b)
    requires AllTokenChars(name) && (rest == [] || (0x20 < rest[0] < 0x7F && !IsTokenChar(rest[0]) && rest[0] != EQUALS))
    requires name + rest != []
    ensures FormattedParams(attrs, param).Some?
    ensures ParsedType(fold, t + (FormattedParams(attrs, param).value + ([SEMICOLON] + (name + rest)))) ==
            Failed(InvalidParameter, ToLower(t))
  {
    hide IsType, IsName, ToLower, FormattedParams, ParsedParams, ReadOf, FoldsAscii, ParsedType, AllTokenChars, IsTokenChar;
    var end := [SEMICOLON] + (name + rest);
    ParamsRead(attrs, param, NOTHING_READ, end);
    FormattedStarts(attrs, param, end);
    TypeParsed(fold, t, FormattedParams(attrs, param).value + end);
    NoParameter(name, rest, ReadOf(attrs, param, NOTHING_READ));
  }

  lemma NoParameter(name: str, rest: str, r: Read)
    requires AllTokenChars(name) && (rest == [] || (0x20 < rest[0] < 0x7F && !IsTokenChar(rest[0]) && rest[0] != EQUALS))
    requires name + rest != []
    ensures ParsedParams([SEMICOLON] + (name + rest), r) == Bad(InvalidParameter)
  {
    hide ConsumeToken, TrimLeft, ConsumeValue, Added;
    var v, w := [SEMICOLON] + (name + rest), name + rest;
    NoSpace(v);
    assert v[1..] == w;
    assert 0x20 < w[0] < 0x7F by { if name != [] { assert w[0] == name[0]; } else { assert w[0] == rest[0]; } }
    NoSpace(w);
    TokenStops(name, rest);
    NoSpace(rest);
  }
}
