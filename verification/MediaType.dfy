/** src/mime/mediatype.go and grammar.go: media types, sections 5.1 of RFC 2045
    and 4 and 7 of RFC 2231. */
module MediaType {
  import opened Basics
  import opened Utf8
  import opened BufioSplit

  type str = seq<byte>

  const QUOTE: byte := 34
  const PERCENT: byte := 37
  const APOSTROPHE: byte := 39
  const STAR: byte := 42
  const SLASH: byte := 47
  const SEMICOLON: byte := 59
  const EQUALS: byte := 61
  const BACKSLASH: byte := 92
  const UTF8_PREFIX: str := [117, 116, 102, 45, 56, 39, 39]

  // ----- grammar -----

  predicate IsTSpecial(c: byte) {
    c in {40, 41, 60, 62, 64, 44, SEMICOLON, 58, BACKSLASH, QUOTE, SLASH, 91, 93, 63, EQUALS}
  }

  predicate IsTokenChar(c: byte) { 0x20 < c < 0x7F && !IsTSpecial(c) }

  predicate AllTokenChars(s: str) { forall i :: 0 <= i < |s| ==> IsTokenChar(s[i]) }

  predicate IsToken(s: str) { s != [] && AllTokenChars(s) }

  function Lower(c: byte): byte { if 65 <= c <= 90 then c + 32 else c }

  function ToLower(s: str): (r: str)
    ensures |r| == |s|
  {
    if s == [] then [] else [Lower(s[0])] + ToLower(s[1..])
  }

  lemma {:induction false} ToLowerIs(s: str)
    ensures forall i :: 0 <= i < |s| ==> ToLower(s)[i] == Lower(s[i])
  {
    if s != [] { ToLowerIs(s[1..]); }
  }

  // ----- formatting -----

  predicate NeedsEncoding(s: str) { exists i :: 0 <= i < |s| && (s[i] < 0x20 || s[i] > 0x7E) && s[i] != 9 }

  /** A byte that percent-encoding does not leave as it is. */
  predicate IsEncoded(c: byte) {
    c <= 0x20 || c >= 0x7F || c == STAR || c == APOSTROPHE || c == PERCENT || IsTSpecial(c)
  }

  function UpperHex(d: nat): byte
    requires d < 16
  {
    if d < 10 then 48 + d else 55 + d
  }

  function PercentByte(c: byte): str {
    if IsEncoded(c) then [PERCENT, UpperHex(c / 16), UpperHex(c % 16)] else [c]
  }

  function PercentEncoded(value: str): str {
    if value == [] then [] else PercentByte(value[0]) + PercentEncoded(value[1..])
  }

  predicate NeedsBackslash(c: byte) { c == QUOTE || c == BACKSLASH }

  function EscapedByte(c: byte): str { if NeedsBackslash(c) then [BACKSLASH, c] else [c] }

  function Escapes(value: str): str {
    if value == [] then [] else EscapedByte(value[0]) + Escapes(value[1..])
  }

  function Quoted(value: str): str { [QUOTE] + Escapes(value) + [QUOTE] }

  /** A parameter's name and value as they are written. */
  function WrittenKey(attribute: str, value: str): str {
    if NeedsEncoding(value) then ToLower(attribute) + [STAR] else ToLower(attribute)
  }

  function WrittenValue(value: str): str {
    if NeedsEncoding(value) then UTF8_PREFIX + PercentEncoded(value) else if IsToken(value) then value else Quoted(value)
  }

  function FormattedParam(attribute: str, value: str): str {
    [SEMICOLON, 32] + WrittenKey(attribute, value) + [EQUALS] + WrittenValue(value)
  }

  /** The parameters in the order of attrs; None if an attribute is no token. */
  function FormattedParams(attrs: seq<str>, param: map<str, str>): Option<str>
    requires forall a :: a in attrs ==> a in param
  {
    if attrs == [] then Some([])
    else if !IsToken(attrs[0]) then None
    else
      match FormattedParams(attrs[1..], param)
      case None => None
      case Some(rest) => Some(FormattedParam(attrs[0], param[attrs[0]]) + rest)
  }

  predicate IsType(t: str) {
    var slash := IndexByte(t, SLASH);
    if slash == -1 then IsToken(t) else IsToken(t[..slash]) && IsToken(t[slash + 1..])
  }

  /** FormatMediaType; it gives [] for None. */
  function Formatted(t: str, attrs: seq<str>, param: map<str, str>): Option<str>
    requires forall a :: a in attrs ==> a in param
  {
    if !IsType(t) then None
    else
      match FormattedParams(attrs, param)
      case None => None
      case Some(rest) => Some(ToLower(t) + rest)
  }

  // ----- parsing -----

  function TrimLeft(s: str): str { s[Skip(s)..] }

  function TrimRight(s: str): str
    decreases |s|
  {
    if Skip(s) == |s| then []
    else
      var n := DecodeRune(s).1;
      s[..n] + TrimRight(s[n..])
  }

  function TokenLength(v: str): (n: nat)
    ensures n <= |v| && AllTokenChars(v[..n]) && (n < |v| ==> !IsTokenChar(v[n]))
  {
    if v == [] || !IsTokenChar(v[0]) then 0 else 1 + TokenLength(v[1..])
  }

  function ConsumeToken(v: str): (str, str) { (v[..TokenLength(v)], v[TokenLength(v)..]) }

  /** The rest of a quoted string, after what has been read of it. */
  function ConsumeQuoted(v: str, read: str): (r: Option<(str, str)>)
    ensures r.Some? ==> |r.value.1| < |v|
    decreases |v|
  {
    if v == [] then None
    else if v[0] == QUOTE then Some((read, v[1..]))
    else if v[0] == BACKSLASH && |v| > 1 && IsTSpecial(v[1]) then ConsumeQuoted(v[2..], read + [v[1]])
    else if v[0] == CR || v[0] == LF then None
    else ConsumeQuoted(v[1..], read + [v[0]])
  }

  function ConsumeValue(v: str): (r: (str, str))
    ensures |r.1| <= |v|
  {
    if v == [] then ([], [])
    else if v[0] != QUOTE then ConsumeToken(v)
    else
      match ConsumeQuoted(v[1..], [])
      case Some(r) => r
      case None => ([], v)
  }

  /** The lower-case name, the value, and what comes after them. */
  function ConsumeMediaParam(v: str): (r: (str, str, str))
    ensures r.0 != [] ==> |r.2| < |v|
  {
    var a := TrimLeft(v);
    if a == [] || a[0] != SEMICOLON then ([], [], v)
    else
      var (param, b) := ConsumeToken(TrimLeft(a[1..]));
      var c := TrimLeft(b);
      if param == [] || c == [] || c[0] != EQUALS then ([], [], v)
      else
        var d := TrimLeft(c[1..]);
        var (value, rest) := ConsumeValue(d);
        if value == [] && rest == d then ([], [], v) else (ToLower(param), value, rest)
  }

  predicate IsHex(c: byte) { 48 <= c <= 57 || 97 <= c <= 102 || 65 <= c <= 70 }

  function UnHex(c: byte): (d: nat)
    ensures d < 16
  {
    if 48 <= c <= 57 then c - 48 else if 97 <= c <= 102 then c - 87 else if 65 <= c <= 70 then c - 55 else 0
  }

  function PercentDecoded(s: str): Option<str> {
    if s == [] then Some([])
    else if s[0] != PERCENT then
      match PercentDecoded(s[1..])
      case None => None
      case Some(t) => Some([s[0]] + t)
    else if |s| < 3 || !IsHex(s[1]) || !IsHex(s[2]) then None
    else
      match PercentDecoded(s[3..])
      case None => None
      case Some(t) => Some([UnHex(s[1]) * 16 + UnHex(s[2])] + t)
  }

  const US_ASCII: str := [117, 115, 45, 97, 115, 99, 105, 105]
  const UTF_8: str := [117, 116, 102, 45, 56]

  function Decode2231(v: str): Option<str> {
    var i := IndexByte(v, APOSTROPHE);
    if i == -1 then None
    else
      var w := v[i + 1..];
      var j := IndexByte(w, APOSTROPHE);
      var charset := ToLower(v[..i]);
      if j == -1 || (charset != US_ASCII && charset != UTF_8) then None
      else PercentDecoded(w[j + 1..])
  }

  function Decimal(n: nat): str { if n < 10 then [48 + n] else Decimal(n / 10) + [48 + n % 10] }

  /** The pieces key*0, key*1, ... from number n on; None if there is none.
      There cannot be more of them than pieces (PiecesAreFew). */
  function Continued(key: str, pieces: map<str, str>, n: nat): Option<str>
    decreases |pieces| + 1 - n
  {
    var simple := key + [STAR] + Decimal(n);
    var piece :=
      if simple in pieces then Some(pieces[simple])
      else if simple + [STAR] in pieces then
        match if n == 0 then Decode2231(pieces[simple + [STAR]]) else PercentDecoded(pieces[simple + [STAR]]) {
          case Some(text) => Some(text)
          case None => Some([])
        }
      else None;
    if piece == None || n > |pieces| then None
    else
      match Continued(key, pieces, n + 1)
      case None => piece
      case Some(rest) => Some(piece.value + rest)
  }

  /** The value that the pieces of one parameter give. */
  function Stitched(key: str, pieces: map<str, str>): Option<str> {
    if key + [STAR] in pieces then Decode2231(pieces[key + [STAR]]) else Continued(key, pieces, 0)
  }

  datatype Error = NoMediaType | InvalidParameter | DuplicateParameter

  /** The parameters read so far: the plain ones, and the pieces of the others
      by the name before the star. */
  datatype Read = Read(params: map<str, str>, pieces: map<str, map<str, str>>)

  datatype Parsed = Parsed(mediaType: str, params: map<str, str>) | Failed(error: Error, mediaType: str)

  function Pieces(r: Read, base: str): map<str, str> { if base in r.pieces then r.pieces[base] else map[] }

  /** Adds a parameter; None if it is there already. */
  function Added(r: Read, key: str, value: str): Option<Read> {
    var star := IndexByte(key, STAR);
    if star == -1 then
      if key in r.params then None else Some(r.(params := r.params[key := value]))
    else
      var base := key[..star];
      if key in Pieces(r, base) then None else Some(r.(pieces := r.pieces[base := Pieces(r, base)[key := value]]))
  }

  /** A trailing semicolon ends the parameters at once. */
  datatype Params = Params(read: Read) | Trailing(read: Read) | Bad(error: Error)

  function ParsedParams(v: str, r: Read): Params
    decreases |v|
  {
    var w := TrimLeft(v);
    if w == [] then Params(r)
    else
      var (key, value, rest) := ConsumeMediaParam(w);
      if key == [] then if w[0] == SEMICOLON && TrimLeft(w[1..]) == [] then Trailing(r) else Bad(InvalidParameter)
      else
        match Added(r, key, value)
        case None => Bad(DuplicateParameter)
        case Some(r') => ParsedParams(rest, r')
  }

  /** Pieces take the place of a plain parameter of the same name. */
  function Merged(r: Read): map<str, str> {
    map k | k in r.params.Keys + r.pieces.Keys && (k in r.params || Stitched(k, r.pieces[k]).Some?) ::
      if k in r.pieces && Stitched(k, r.pieces[k]).Some? then Stitched(k, r.pieces[k]).value else r.params[k]
  }

  predicate IsDisposition(s: str) {
    var (typ, rest) := ConsumeToken(s);
    typ != [] && (rest == [] || (rest[0] == SLASH && IsToken(rest[1..])))
  }

  /** strings.ToLower, whatever it does beyond ASCII. */
  type Folding = str -> str

  ghost predicate FoldsAscii(fold: Folding) {
    forall s: str :: (forall i :: 0 <= i < |s| ==> s[i] < RUNE_SELF) ==> fold(s) == ToLower(s)
  }

  /** ParseMediaType. */
  function ParsedType(fold: Folding, v: str): Parsed {
    var i := if IndexByte(v, SEMICOLON) == -1 then |v| else IndexByte(v, SEMICOLON);
    var mediaType := TrimRight(TrimLeft(fold(v[..i])));
    if !IsDisposition(mediaType) then Failed(NoMediaType, [])
    else
      match ParsedParams(v[i..], Read(map[], map[]))
      case Bad(InvalidParameter) => Failed(InvalidParameter, mediaType)
      case Bad(e) => Failed(e, [])
      case Trailing(r) => Parsed(mediaType, r.params)
      case Params(r) => Parsed(mediaType, Merged(r))
  }

  // ----- continuations -----

  function PieceName(key: str, n: nat, starred: bool): str {
    key + [STAR] + Decimal(n) + (if starred then [STAR] else [])
  }

  predicate HasPiece(key: str, pieces: map<str, str>, n: nat) {
    PieceName(key, n, false) in pieces || PieceName(key, n, true) in pieces
  }

  lemma {:induction false} DecimalLast(n: nat)
    ensures |Decimal(n)| > 0 && Decimal(n)[|Decimal(n)| - 1] == 48 + n % 10
    ensures n >= 10 ==> Decimal(n)[..|Decimal(n)| - 1] == Decimal(n / 10) && |Decimal(n)| > 1
  {
    if n >= 10 { DecimalLast(n / 10); }
  }

  lemma {:induction false} DecimalInjective(a: nat, b: nat)
    requires Decimal(a) == Decimal(b)
    ensures a == b
  {
    hide Decimal;
    DecimalLast(a);
    DecimalLast(b);
    DecimalShort(a);
    DecimalShort(b);
    if a >= 10 && b >= 10 { DecimalInjective(a / 10, b / 10); }
  }

  lemma DecimalShort(n: nat)
    ensures |Decimal(n)| == 1 <==> n < 10
  {
    DecimalLast(n);
  }

  /** A name determines the number of its piece. */
  lemma PieceNumber(key: str, a: nat, x: bool, b: nat, y: bool)
    requires PieceName(key, a, x) == PieceName(key, b, y)
    ensures a == b
  {
    hide Decimal;
    var s, t := PieceName(key, a, x), PieceName(key, b, y);
    DecimalLast(a);
    DecimalLast(b);
    DropStar(key, a, x);
    DropStar(key, b, y);
    DecimalInjective(a, b);
  }

  /** The number of a piece, with its star if it has one. */
  lemma DropStar(key: str, n: nat, starred: bool)
    ensures var s := PieceName(key, n, starred);
            && |s| > |key| + 1 && (s[|s| - 1] == STAR <==> starred)
            && s[|key| + 1..if starred then |s| - 1 else |s|] == Decimal(n)
  {
    hide Decimal;
    DecimalLast(n);
    var s := PieceName(key, n, starred);
    assert s[..|key| + 1] == key + [STAR];
  }

  lemma {:induction false} PieceKeys(key: str, pieces: map<str, str>, k: nat) returns (names: set<str>)
    requires forall n: nat :: n < k ==> HasPiece(key, pieces, n)
    ensures names <= pieces.Keys && |names| == k
    ensures forall name :: name in names ==> exists n: nat, starred: bool :: n < k && name == PieceName(key, n, starred)
  {
    hide PieceName;
    names := {};
    if k > 0 {
      names := PieceKeys(key, pieces, k - 1);
      assert HasPiece(key, pieces, k - 1);
      var starred := PieceName(key, k - 1, false) !in pieces;
      var name := PieceName(key, k - 1, starred);
      if name in names {
        var n: nat, other: bool :| n < k - 1 && name == PieceName(key, n, other);
        PieceNumber(key, n, other, k - 1, starred);
      }
      names := names + {name};
    }
  }

  lemma {:induction false} SubsetSize(a: set<str>, b: set<str>)
    requires a <= b
    ensures |a| <= |b|
  {
    if a != {} {
      var x :| x in a;
      SubsetSize(a - {x}, b - {x});
    }
  }

  /** If the pieces with numbers below n are all there, there are n at least:
      the bound in Continued is never what ends it. */
  lemma PiecesAreFew(key: str, pieces: map<str, str>, n: nat)
    requires forall i: nat :: i < n ==> HasPiece(key, pieces, i)
    ensures n <= |pieces|
  {
    hide HasPiece, PieceName;
    var names := PieceKeys(key, pieces, n);
    SubsetSize(names, pieces.Keys);
  }

  // ----- tokens and spaces -----

  lemma {:induction false} TokenStops(token: str, rest: str)
    requires AllTokenChars(token) && (rest == [] || !IsTokenChar(rest[0]))
    ensures TokenLength(token + rest) == |token| && ConsumeToken(token + rest) == (token, rest)
  {
    var v := token + rest;
    if token != [] {
      TokenStops(token[1..], rest);
      assert v[1..] == token[1..] + rest;
    } else {
      assert v == rest;
    }
    assert v[..|token|] == token && v[|token|..] == rest;
    assert ConsumeToken(v) == (v[..|token|], v[|token|..]);
  }

  lemma NoSpace(s: str)
    requires s == [] || (0x20 < s[0] < 0x7F)
    ensures TrimLeft(s) == s
  {}

  lemma OneSpace(s: str)
    requires s != [] && 0x20 < s[0] < 0x7F
    ensures TrimLeft([32] + s) == s
  {
    assert ([32] + s)[1..] == s;
    assert DecodeRune([32] + s) == (32, 1);
    assert Skip([32] + s) == 1 + Skip(s);
  }

  lemma {:induction false} NoSpaceAnywhere(s: str)
    requires forall i :: 0 <= i < |s| ==> 0x20 < s[i] < 0x7F
    ensures TrimRight(TrimLeft(s)) == s
    decreases |s|
  {
    NoSpace(s);
    if s != [] {
      NoSpaceAnywhere(s[1..]);
      NoSpace(s[1..]);
      assert DecodeRune(s).1 == 1 && s == s[..1] + s[1..];
    }
  }

  // ----- values -----

  lemma {:induction false} QuotedRead(value: str, rest: str, read: str)
    requires forall i :: 0 <= i < |value| ==> value[i] != CR && value[i] != LF
    ensures ConsumeQuoted(Escapes(value) + [QUOTE] + rest, read) == Some((read + value, rest))
    decreases |value|
  {
    var v := Escapes(value) + [QUOTE] + rest;
    if value == [] {
      assert v == [QUOTE] + rest && read + value == read;
    } else {
      var c := value[0];
      var tail := Escapes(value[1..]) + [QUOTE] + rest;
      QuotedRead(value[1..], rest, read + [c]);
      assert read + [c] + value[1..] == read + value;
      if c == QUOTE || c == BACKSLASH {
        assert v == [BACKSLASH, c] + tail;
        assert v[2..] == tail;
      } else {
        assert v == [c] + tail;
        assert v[1..] == tail;
      }
    }
  }

  lemma HexRoundTrip(c: byte)
    ensures var x, y := UpperHex(c / 16), UpperHex(c % 16);
            IsHex(x) && IsHex(y) && IsTokenChar(x) && IsTokenChar(y) && UnHex(x) * 16 + UnHex(y) == c
  {}

  function LowerHex(d: nat): byte
    requires d < 16
  {
    if d < 10 then 48 + d else 87 + d
  }

  /** The digits that are read: of either case. */
  lemma HexDigits(c: byte)
    ensures IsHex(c) <==> exists d: nat :: d < 16 && (c == UpperHex(d) || c == LowerHex(d))
    ensures forall d: nat :: d < 16 && (c == UpperHex(d) || c == LowerHex(d)) ==> UnHex(c) == d
  {
    if IsHex(c) { assert c == UpperHex(UnHex(c)) || c == LowerHex(UnHex(c)); }
  }

  /** Percent-encoding: its inverse, and the bytes it uses. */
  lemma {:induction false} PercentRoundTrip(value: str)
    ensures PercentDecoded(PercentEncoded(value)) == Some(value)
    ensures AllTokenChars(PercentEncoded(value))
  {
    if value != [] {
      var c, tail := value[0], PercentEncoded(value[1..]);
      PercentRoundTrip(value[1..]);
      assert [c] + value[1..] == value;
      if IsEncoded(c) { EscapeDecoded(c, tail); } else { PlainDecoded(c, tail); }
    }
  }

  lemma EscapeDecoded(c: byte, tail: str)
    requires AllTokenChars(tail)
    ensures var s := [PERCENT, UpperHex(c / 16), UpperHex(c % 16)] + tail;
            && AllTokenChars(s)
            && PercentDecoded(s) == match PercentDecoded(tail) case None => None case Some(t) => Some([c] + t)
  {
    HexRoundTrip(c);
    var s := [PERCENT, UpperHex(c / 16), UpperHex(c % 16)] + tail;
    assert s[3..] == tail;
  }

  lemma PlainDecoded(c: byte, tail: str)
    requires AllTokenChars(tail) && !IsEncoded(c)
    ensures AllTokenChars([c] + tail)
    ensures PercentDecoded([c] + tail) == match PercentDecoded(tail) case None => None case Some(t) => Some([c] + t)
  {
    assert ([c] + tail)[1..] == tail;
  }

  lemma LowerUtf8()
    ensures ToLower(UTF_8) == UTF_8
  {
    ToLowerIs(UTF_8);
  }

  /** An extended value, section 4 of RFC 2231: the charset, in any case, the
      language, which does not matter, and the encoded text. */
  lemma Decode2231Of(charset: str, language: str, value: str)
    requires APOSTROPHE !in charset && APOSTROPHE !in language
    ensures Decode2231(charset + [APOSTROPHE] + language + [APOSTROPHE] + PercentEncoded(value)) ==
            if ToLower(charset) == US_ASCII || ToLower(charset) == UTF_8 then Some(value) else None
  {
    hide PercentEncoded, PercentDecoded, ToLower;
    var v := charset + [APOSTROPHE] + language + [APOSTROPHE] + PercentEncoded(value);
    var i := |charset|;
    assert v[..i] == charset && v[i] == APOSTROPHE;
    IndexByteIs(v, APOSTROPHE, i);
    var w := v[i + 1..];
    assert w == language + [APOSTROPHE] + PercentEncoded(value);
    assert w[..|language|] == language;
    IndexByteIs(w, APOSTROPHE, |language|);
    assert w[|language| + 1..] == PercentEncoded(value);
    PercentRoundTrip(value);
  }

  lemma Decode2231RoundTrip(value: str)
    ensures Decode2231(UTF8_PREFIX + PercentEncoded(value)) == Some(value)
  {
    hide PercentEncoded, Decode2231;
    Decode2231Of(UTF_8, [], value);
    LowerUtf8();
    assert UTF_8 + [APOSTROPHE] + [] + [APOSTROPHE] == UTF8_PREFIX;
  }

  /** The value of a parameter is read as it was written. */
  function RawValue(value: str): str {
    if NeedsEncoding(value) then UTF8_PREFIX + PercentEncoded(value) else value
  }

  /** A written value does not start with a space. */
  predicate StartsVisibly(s: str) { s != [] && 0x20 < s[0] < 0x7F }

  lemma EncodedRead(value: str, rest: str)
    requires rest == [] || rest[0] == SEMICOLON
    ensures var w := UTF8_PREFIX + PercentEncoded(value);
            StartsVisibly(w) && ConsumeValue(w + rest) == (w, rest)
  {
    hide PercentEncoded, TokenLength, ConsumeToken, ConsumeQuoted;
    PercentRoundTrip(value);
    TokenStops(UTF8_PREFIX + PercentEncoded(value), rest);
  }

  lemma TokenRead(value: str, rest: str)
    requires IsToken(value) && (rest == [] || rest[0] == SEMICOLON)
    ensures StartsVisibly(value) && ConsumeValue(value + rest) == (value, rest)
  {
    hide TokenLength, ConsumeToken, ConsumeQuoted;
    TokenStops(value, rest);
  }

  lemma QuotedValueRead(value: str, rest: str)
    requires !NeedsEncoding(value)
    ensures StartsVisibly(Quoted(value)) && ConsumeValue(Quoted(value) + rest) == (value, rest)
  {
    hide Escapes, ConsumeQuoted, ConsumeToken;
    var v := Quoted(value) + rest;
    assert v[1..] == Escapes(value) + [QUOTE] + rest;
    QuotedRead(value, rest, []);
    assert [] + value == value;
  }

  lemma ValueRead(value: str, rest: str)
    requires rest == [] || rest[0] == SEMICOLON
    ensures StartsVisibly(WrittenValue(value)) && ConsumeValue(WrittenValue(value) + rest) == (RawValue(value), rest)
  {
    hide ConsumeValue, Quoted, PercentEncoded, IsToken, NeedsEncoding, StartsVisibly;
    if NeedsEncoding(value) {
      EncodedRead(value, rest);
    } else if IsToken(value) {
      TokenRead(value, rest);
    } else {
      QuotedValueRead(value, rest);
    }
  }

  // ----- parameters -----

  /** A parameter name that formatting keeps: a lower-case token without a
      star. */
  predicate IsName(a: str) { IsToken(a) && ToLower(a) == a && STAR !in a }

  lemma ToLowerCons(c: byte, t: str)
    ensures ToLower([c] + t) == [Lower(c)] + ToLower(t) && ToLower([]) == []
  {
    assert ([c] + t)[1..] == t;
  }

  lemma {:induction false} ToLowerConcat(a: str, b: str)
    ensures ToLower(a + b) == ToLower(a) + ToLower(b)
  {
    hide ToLower, Lower;
    if a == [] {
      ToLowerCons(0, []);
      assert a + b == b;
    } else {
      var c, t := a[0], a[1..];
      ToLowerConcat(t, b);
      ToLowerCons(c, t);
      ToLowerCons(c, t + b);
      assert a == [c] + t && a + b == [c] + (t + b);
    }
  }

  /** A parameter as the formatter and other writers lay it out. */
  function Laid(key: str, written: str): str { [SEMICOLON, 32] + key + [EQUALS] + written }

  /** A lower-case name, and a value that is read as raw. */
  predicate Readable(key: str, written: str, raw: str, rest: str) {
    && IsToken(key) && ToLower(key) == key
    && StartsVisibly(written) && ConsumeValue(written + rest) == (raw, rest)
  }

  lemma LaidRead(key: str, written: str, raw: str, rest: str)
    requires Readable(key, written, raw, rest)
    ensures ConsumeMediaParam(Laid(key, written) + rest) == (key, raw, rest)
    ensures TrimLeft(Laid(key, written) + rest) == Laid(key, written) + rest
  {
    hide ConsumeToken, ConsumeValue, TrimLeft, ToLower;
    var v, w := Laid(key, written) + rest, written + rest;
    var c := [EQUALS] + w;
    NoSpace(v);
    assert v[1..] == [32] + (key + c);
    OneSpace(key + c);
    TokenStops(key, c);
    NoSpace(c);
    assert c[1..] == w;
    NoSpace(w);
  }

  lemma KeyWritten(a: str, value: str)
    requires IsName(a)
    ensures IsToken(WrittenKey(a, value)) && ToLower(WrittenKey(a, value)) == WrittenKey(a, value)
  {
    ToLowerConcat(a, [STAR]);
    ToLowerCons(STAR, []);
  }

  lemma ParamRead(a: str, value: str, rest: str)
    requires IsName(a) && (rest == [] || rest[0] == SEMICOLON)
    ensures ConsumeMediaParam(FormattedParam(a, value) + rest) == (WrittenKey(a, value), RawValue(value), rest)
    ensures Readable(WrittenKey(a, value), WrittenValue(value), RawValue(value), rest)
  {
    hide WrittenKey, WrittenValue, RawValue, IsName, ConsumeMediaParam, ConsumeValue, ToLower, IsToken, StartsVisibly;
    KeyWritten(a, value);
    ValueRead(value, rest);
    LaidRead(WrittenKey(a, value), WrittenValue(value), RawValue(value), rest);
  }

  /** One parameter of the loop. */
  lemma LaidStep(key: str, written: str, raw: str, rest: str, r: Read)
    requires Readable(key, written, raw, rest)
    ensures ParsedParams(Laid(key, written) + rest, r) ==
            match Added(r, key, raw) case None => Bad(DuplicateParameter) case Some(r') => ParsedParams(rest, r')
  {
    hide ConsumeMediaParam, TrimLeft, ToLower, Added, ConsumeValue, StartsVisibly;
    LaidRead(key, written, raw, rest);
  }

  /** What reading the parameters of attrs gives: the values that need no
      encoding, and one piece for each of the others. */
  function ReadOf(attrs: seq<str>, param: map<str, str>, r: Read): Read
    requires forall a :: a in attrs ==> a in param
  {
    if attrs == [] then r
    else
      var a := attrs[0];
      ReadOf(attrs[1..], param,
             if NeedsEncoding(param[a]) then r.(pieces := r.pieces[a := map[a + [STAR] := RawValue(param[a])]])
             else r.(params := r.params[a := param[a]]))
  }

  predicate Distinct(attrs: seq<str>) { forall i, j :: 0 <= i < j < |attrs| ==> attrs[i] != attrs[j] }

  lemma AddedParam(r: Read, a: str, value: str)
    requires IsName(a) && a !in r.params && a !in r.pieces
    ensures Added(r, WrittenKey(a, value), RawValue(value)) ==
            Some(if NeedsEncoding(value) then r.(pieces := r.pieces[a := map[a + [STAR] := RawValue(value)]])
                 else r.(params := r.params[a := value]))
  {
    var key := WrittenKey(a, value);
    if NeedsEncoding(value) {
      assert key[..|a|] == a;
      IndexByteIs(key, STAR, |a|);
      assert Pieces(r, a)[key := RawValue(value)] == map[key := RawValue(value)];
    }
  }

  lemma FormattedStarts(attrs: seq<str>, param: map<str, str>, end: str)
    requires forall a :: a in attrs ==> a in param
    requires FormattedParams(attrs, param).Some? && (end == [] || end[0] == SEMICOLON)
    ensures var v := FormattedParams(attrs, param).value + end; v == [] || v[0] == SEMICOLON
  {}

  /** One step of reading the parameters. */
  lemma FirstRead(a: str, value: str, tail: str, r: Read)
    requires IsName(a) && (tail == [] || tail[0] == SEMICOLON)
    ensures ParsedParams(FormattedParam(a, value) + tail, r) ==
            match Added(r, WrittenKey(a, value), RawValue(value))
            case None => Bad(DuplicateParameter)
            case Some(r') => ParsedParams(tail, r')
  {
    hide WrittenKey, WrittenValue, RawValue, IsName, ParsedParams, Added, Readable, ConsumeMediaParam;
    ParamRead(a, value, tail);
    LaidStep(WrittenKey(a, value), WrittenValue(value), RawValue(value), tail, r);
  }

  lemma LastRead(end: str, r: Read)
    requires end == [] || end == [SEMICOLON]
    ensures ParsedParams(end, r) == if end == [] then Params(r) else Trailing(r)
  {
    hide ConsumeMediaParam, TrimLeft, Added;
    NoSpace(end);
    NoSpace([]);
    if end != [] {
      assert end[1..] == [];
      LoneSemicolon();
    }
  }

  lemma LoneSemicolon()
    ensures ConsumeMediaParam([SEMICOLON]).0 == []
  {
    hide TrimLeft, ConsumeValue;
    NoSpace([SEMICOLON]);
    NoSpace([]);
    assert [SEMICOLON][1..] == [];
    NoToken([]);
  }

  lemma NoToken(v: str)
    requires v == [] || !IsTokenChar(v[0])
    ensures ConsumeToken(v).0 == []
  {}

  /** Reading what was formatted, and then whatever follows. */
  lemma {:induction false} ParamsRead(attrs: seq<str>, param: map<str, str>, r: Read, end: str)
    requires Distinct(attrs) && forall a :: a in attrs ==> a in param && IsName(a) && a !in r.params && a !in r.pieces
    requires end == [] || end[0] == SEMICOLON
    ensures FormattedParams(attrs, param).Some?
    ensures ParsedParams(FormattedParams(attrs, param).value + end, r) == ParsedParams(end, ReadOf(attrs, param, r))
    decreases |attrs|
  {
    hide WrittenKey, RawValue, FormattedParam, ParsedParams, Added, NeedsEncoding, ToLower;
    if attrs == [] {
      assert [] + end == end;
    } else {
      var a := attrs[0];
      AddedParam(r, a, param[a]);
      var r' := Added(r, WrittenKey(a, param[a]), RawValue(param[a])).value;
      ParamsRead(attrs[1..], param, r', end);
      FormattedStarts(attrs[1..], param, end);
      var tail := FormattedParams(attrs[1..], param).value + end;
      FirstRead(a, param[a], tail, r);
      assert FormattedParams(attrs, param).value + end == FormattedParam(a, param[a]) + tail;
    }
  }

  // ----- the round trip -----

  /** attrs lists the keys of param. */
  ghost predicate Lists(attrs: seq<str>, param: map<str, str>) {
    Distinct(attrs) && (forall a :: a in attrs <==> a in param)
  }

  lemma {:induction false} ReadOfHas(attrs: seq<str>, param: map<str, str>, r: Read, k: str)
    requires Distinct(attrs) && forall a :: a in attrs ==> a in param && a !in r.params && a !in r.pieces
    ensures var q := ReadOf(attrs, param, r);
            if k in attrs then
              if NeedsEncoding(param[k]) then k !in q.params && k in q.pieces && q.pieces[k] == map[k + [STAR] := RawValue(param[k])]
              else k in q.params && q.params[k] == param[k] && k !in q.pieces
            else
              && (k in q.params <==> k in r.params) && (k in q.params ==> q.params[k] == r.params[k])
              && (k in q.pieces <==> k in r.pieces) && (k in q.pieces ==> q.pieces[k] == r.pieces[k])
    decreases |attrs|
  {
    if attrs != [] {
      var a := attrs[0];
      var r' := if NeedsEncoding(param[a]) then r.(pieces := r.pieces[a := map[a + [STAR] := RawValue(param[a])]])
                else r.(params := r.params[a := param[a]]);
      ReadOfHas(attrs[1..], param, r', k);
    }
  }

  lemma StitchedPiece(key: str, value: str)
    requires NeedsEncoding(value)
    ensures Stitched(key, map[key + [STAR] := RawValue(value)]) == Some(value)
  {
    Decode2231RoundTrip(value);
  }

  const NOTHING_READ := Read(map[], map[])

  lemma MergedIsParam(attrs: seq<str>, param: map<str, str>)
    requires Lists(attrs, param)
    ensures Merged(ReadOf(attrs, param, NOTHING_READ)) == param
  {
    hide NeedsEncoding, Stitched, RawValue, ReadOf;
    var q := ReadOf(attrs, param, NOTHING_READ);
    forall k: str
      ensures k in Merged(q) <==> k in param
      ensures k in param ==> Merged(q)[k] == param[k]
    {
      ReadOfHas(attrs, param, NOTHING_READ, k);
      if k in param && NeedsEncoding(param[k]) { StitchedPiece(k, param[k]); }
    }
  }

  lemma LowerToken(t: str)
    requires AllTokenChars(t)
    ensures AllTokenChars(ToLower(t))
  {
    ToLowerIs(t);
  }

  lemma {:induction false} ToLowerTwice(t: str)
    ensures ToLower(ToLower(t)) == ToLower(t)
  {
    if t != [] { ToLowerTwice(t[1..]); }
  }

  lemma LowerParts(t: str, slash: nat)
    requires slash < |t| && t[slash] == SLASH
    ensures ToLower(t) == ToLower(t[..slash]) + [SLASH] + ToLower(t[slash + 1..])
  {
    hide ToLower;
    var major, sub := t[..slash], t[slash + 1..];
    assert t == major + ([SLASH] + sub);
    ToLowerConcat(major, [SLASH] + sub);
    ToLowerCons(SLASH, sub);
  }

  lemma LowerDisposition(t: str)
    requires IsType(t)
    ensures IsDisposition(ToLower(t))
  {
    hide ToLower;
    var slash := IndexByte(t, SLASH);
    var l := ToLower(t);
    if slash == -1 {
      LowerToken(t);
      TokenStops(l, []);
      assert l + [] == l;
    } else {
      LowerToken(t[..slash]);
      LowerToken(t[slash + 1..]);
      LowerParts(t, slash);
      assert l[..slash] == ToLower(t[..slash]) && l[slash + 1..] == ToLower(t[slash + 1..]);
      TokenStops(l[..slash], l[slash..]);
      assert l == l[..slash] + l[slash..];
      assert l[slash..][1..] == l[slash + 1..];
    }
  }

  lemma TypeKept(t: str)
    requires IsType(t)
    ensures var l := ToLower(t);
            IsDisposition(l) && TrimRight(TrimLeft(l)) == l && SEMICOLON !in l && ToLower(l) == l
  {
    hide IsType, IsDisposition, TrimLeft, TrimRight, ToLower;
    LowerDisposition(t);
    TypeVisible(t);
    ToLowerIs(t);
    NoSpaceAnywhere(ToLower(t));
    ToLowerTwice(t);
  }

  lemma TypeFolded(fold: Folding, t: str)
    requires FoldsAscii(fold) && IsType(t)
    ensures fold(ToLower(t)) == ToLower(t)
  {
    hide IsType, ToLower;
    TypeVisible(t);
    ToLowerIs(t);
    ToLowerTwice(t);
    var l := ToLower(t);
    assert forall i :: 0 <= i < |l| ==> l[i] == Lower(t[i]);
  }

  lemma TypeVisible(t: str)
    requires IsType(t)
    ensures forall i :: 0 <= i < |t| ==> 0x20 < t[i] < 0x7F && t[i] != SEMICOLON
  {
    var slash := IndexByte(t, SLASH);
    forall i | 0 <= i < |t|
      ensures 0x20 < t[i] < 0x7F && t[i] != SEMICOLON
    {
      if slash != -1 && i < slash { assert t[..slash][i] == t[i]; }
      if slash != -1 && i > slash { assert t[slash + 1..][i - slash - 1] == t[i]; }
    }
  }

  lemma TypeSplit(l: str, rest: str)
    requires SEMICOLON !in l && (rest == [] || rest[0] == SEMICOLON)
    ensures var v := l + rest;
            var i := if IndexByte(v, SEMICOLON) == -1 then |v| else IndexByte(v, SEMICOLON);
            i == |l| && v[..i] == l && v[i..] == rest
  {
    var v := l + rest;
    assert v[..|l|] == l;
    if rest != [] { IndexByteIs(v, SEMICOLON, |l|); }
  }

  /** Parsing what was formatted, in whatever order the parameters were
      written, gives the lower-case type and the same parameters. */
  lemma RoundTrip(fold: Folding, t: str, attrs: seq<str>, param: map<str, str>)
    requires FoldsAscii(fold) && IsType(t) && Lists(attrs, param) && forall a :: a in param ==> IsName(a)
    ensures Formatted(t, attrs, param).Some?
    ensures ParsedType(fold, Formatted(t, attrs, param).value) == Parsed(ToLower(t), param)
  {
    hide IsType, IsName, ToLower, IsDisposition, FormattedParams, ParsedParams, ReadOf, Merged, TrimLeft, TrimRight, FoldsAscii;
    ParamsRead(attrs, param, NOTHING_READ, []);
    LastRead([], ReadOf(attrs, param, NOTHING_READ));
    var f := FormattedParams(attrs, param).value;
    FormattedStarts(attrs, param, []);
    assert f + [] == f;
    TypeKept(t);
    TypeFolded(fold, t);
    TypeSplit(ToLower(t), f);
    MergedIsParam(attrs, param);
  }

  /** Not so when a semicolon follows: parsing then stops before the encoded
      values are put back, and only the others are found. */
  lemma TrailingSemicolon(fold: Folding, t: str, attrs: seq<str>, param: map<str, str>)
    requires FoldsAscii(fold) && IsType(t) && Lists(attrs, param) && forall a :: a in param ==> IsName(a)
    ensures Formatted(t, attrs, param).Some?
    ensures ParsedType(fold, Formatted(t, attrs, param).value + [SEMICOLON]) ==
            Parsed(ToLower(t), map k | k in param && !NeedsEncoding(param[k]) :: param[k])
  {
    hide IsType, IsName, ToLower, IsDisposition, FormattedParams, ParsedParams, ReadOf, TrimLeft, TrimRight, NeedsEncoding, FoldsAscii;
    ParamsRead(attrs, param, NOTHING_READ, [SEMICOLON]);
    LastRead([SEMICOLON], ReadOf(attrs, param, NOTHING_READ));
    var f := FormattedParams(attrs, param).value;
    FormattedStarts(attrs, param, [SEMICOLON]);
    TypeKept(t);
    TypeFolded(fold, t);
    TypeSplit(ToLower(t), f + [SEMICOLON]);
    assert ToLower(t) + f + [SEMICOLON] == ToLower(t) + (f + [SEMICOLON]);
    var q := ReadOf(attrs, param, NOTHING_READ);
    forall k: str
      ensures k in q.params <==> k in param && !NeedsEncoding(param[k])
      ensures k in q.params ==> q.params[k] == param[k]
    {
      ReadOfHas(attrs, param, NOTHING_READ, k);
    }
    assert q.params == map k | k in param && !NeedsEncoding(param[k]) :: param[k];
  }

  /** So what the parser makes of the formatted string stays the same exactly if
      no parameter is encoded. */
  lemma TrailingSemicolonKeeps(fold: Folding, t: str, attrs: seq<str>, param: map<str, str>)
    requires FoldsAscii(fold) && IsType(t) && Lists(attrs, param) && forall a :: a in param ==> IsName(a)
    ensures Formatted(t, attrs, param).Some?
    ensures var s := Formatted(t, attrs, param).value;
            ParsedType(fold, s + [SEMICOLON]) == ParsedType(fold, s) <==> forall a :: a in param ==> !NeedsEncoding(param[a])
  {
    hide IsType, IsName, ToLower, NeedsEncoding, Formatted, ParsedType, Lists, FoldsAscii;
    RoundTrip(fold, t, attrs, param);
    TrailingSemicolon(fold, t, attrs, param);
    AllKept(param);
  }

  lemma AllKept(param: map<str, str>)
    ensures (map k | k in param && !NeedsEncoding(param[k]) :: param[k]) == param
            <==> forall k :: k in param ==> !NeedsEncoding(param[k])
  {
    hide NeedsEncoding;
    var kept := map k | k in param && !NeedsEncoding(param[k]) :: param[k];
    if kept == param {
      forall k | k in param
        ensures !NeedsEncoding(param[k])
      {
        assert k in kept;
      }
    }
  }
}
