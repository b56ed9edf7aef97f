/** src/mime/encodedword.go as it runs: the loops that write and read encoded
    words, against the functions of EncodedWord. */
module EncodedWordLoops {
  import opened Basics
  import opened Utf8
  import opened MediaType
  import opened EncodedWord
  import MediaTypeLoops

  // ----- writing -----

  /** What qEncode writes for s when cur bytes are in the current word. */
  function Body(charset: str, s: str, cur: nat): str
    decreases |s|
  {
    if s == [] then []
    else
      var (n, e) := Step(s);
      if cur + e > MAX_CONTENT_LEN then CLOSE_WORD + [SPACE] + OpenWord(charset) + QString(s[..n]) + Body(charset, s[n..], e)
      else QString(s[..n]) + Body(charset, s[n..], cur + e)
  }

  lemma {:induction false} QAll(s: str)
    requires forall i :: 0 <= i < |s| ==> s[i] < 0x20 || s[i] > 0x7E || s[i] in {EQUALS, QUESTION, UNDERSCORE}
    ensures |QString(s)| == 3 * |s|
  {
    if s != [] { QAll(s[1..]); }
  }

  lemma Rest80(s: str)
    requires s != []
    ensures forall i :: 0 < i < DecodeRune(s).1 ==> s[i] >= 0x80
  {}

  /** qEncode counts the bytes it writes. */
  lemma StepExact(s: str)
    requires s != []
    ensures |QString(s[..Step(s).0])| == Step(s).1
  {
    var (n, e) := Step(s);
    if IsPlain(s[0]) {
      assert s[..1] == [s[0]] + [];
      QCons(s[0], []);
    } else {
      Rest80(s);
      QAll(s[..n]);
    }
  }

  lemma {:induction false} BodyIsWords(charset: str, s: str, chunk: str)
    ensures Words(charset, Chunks(s, chunk)) ==
            OpenWord(charset) + QString(chunk) + Body(charset, s, |QString(chunk)|) + CLOSE_WORD
    decreases |s|
  {
    hide QString, Step, OpenWord;
    var o, q := OpenWord(charset), QString(chunk);
    if s == [] {
      assert o + q + [] + CLOSE_WORD == o + q + CLOSE_WORD;
    } else {
      var (n, e) := Step(s);
      var p := QString(s[..n]);
      StepExact(s);
      if |q| + e > MAX_CONTENT_LEN {
        var more := Chunks(s[n..], s[..n]);
        BodyIsWords(charset, s[n..], s[..n]);
        ChunksFlatten(s[n..], s[..n]);
        assert ([chunk] + more)[1..] == more;
        var b := Body(charset, s[n..], e);
        Regroup(o, q, p, b);
      } else {
        BodyIsWords(charset, s[n..], chunk + s[..n]);
        QConcat(chunk, s[..n]);
        var b := Body(charset, s[n..], |q| + e);
        assert o + (q + p) + b + CLOSE_WORD == o + q + (p + b) + CLOSE_WORD;
      }
    }
  }

  lemma Regroup(o: str, q: str, p: str, b: str)
    ensures o + q + CLOSE_WORD + [SPACE] + (o + p + b + CLOSE_WORD)
            == o + q + (CLOSE_WORD + [SPACE] + o + p + b) + CLOSE_WORD
  {}

  method WriteQString(buf: str, s: str) returns (buf': str)
    ensures buf' == buf + QString(s)
  {
    buf' := buf;
    assert s[..0] == [];
    for i := 0 to |s|
      invariant buf' == buf + QString(s[..i])
    {
      assert s[..i + 1] == s[..i] + [s[i]];
      QConcat(s[..i], [s[i]]);
      QCons(s[i], []);
      assert QByte(s[i]) + [] == QByte(s[i]);
      assert buf + QString(s[..i]) + QByte(s[i]) == buf + (QString(s[..i]) + QByte(s[i]));
      if s[i] == SPACE {
        buf' := buf' + [UNDERSCORE];
      } else if 0x21 <= s[i] <= 0x7E && s[i] != EQUALS && s[i] != QUESTION && s[i] != UNDERSCORE {
        buf' := buf' + [s[i]];
      } else {
        buf' := buf' + [EQUALS, UpperHex(s[i] / 16), UpperHex(s[i] % 16)];
      }
    }
    assert s[..|s|] == s;
  }

  method QEncode(buf: str, charset: str, s: str) returns (buf': str)
    requires IsUtf8(charset)
    ensures buf' == buf + Body(charset, s, 0)
  {
    hide QString, Step, OpenWord;
    buf' := buf;
    var currentLen, i := 0, 0;
    assert s[0..] == s;
    while i < |s|
      invariant 0 <= i <= |s| && currentLen >= 0
      invariant buf' + Body(charset, s[i..], currentLen) == buf + Body(charset, s, 0)
    {
      var (runeLen, encLen) := Step(s[i..]);
      ghost var before, rest := buf', Body(charset, s[i + runeLen..], if currentLen + encLen > MAX_CONTENT_LEN then encLen else currentLen + encLen);
      assert s[i..][runeLen..] == s[i + runeLen..] && s[i..][..runeLen] == s[i..i + runeLen];
      if currentLen + encLen > MAX_CONTENT_LEN {
        buf' := buf' + (CLOSE_WORD + [SPACE] + OpenWord(charset));
        currentLen := 0;
      }
      ghost var p := QString(s[i..i + runeLen]);
      buf' := WriteQString(buf', s[i..i + runeLen]);
      assert before + (CLOSE_WORD + [SPACE] + OpenWord(charset)) + p + rest
             == before + (CLOSE_WORD + [SPACE] + OpenWord(charset) + p + rest);
      assert before + p + rest == before + (p + rest);
      currentLen := currentLen + encLen;
      i := i + runeLen;
    }
    assert s[i..] == [];
  }

  method Encode(charset: str, s: str) returns (r: str)
    ensures r == Encoded(charset, s)
  {
    var needs := MediaTypeLoops.HasUnprintable(s);
    if !needs {
      return s;
    }
    r := OpenWord(charset);
    if IsUtf8(charset) {
      BodyIsWords(charset, s, []);
      r := QEncode(r, charset, s);
    } else {
      r := WriteQString(r, s);
    }
    r := r + CLOSE_WORD;
  }

  // ----- reading -----

  lemma QStep(s: str, i: nat)
    requires i < |s|
    ensures QDecoded(s[i..]) ==
            if s[i] == EQUALS then
              if i + 2 >= |s| || !IsHex(s[i + 1]) || !IsHex(s[i + 2]) then None
              else match QDecoded(s[i + 3..]) case None => None case Some(t) => Some([UnHex(s[i + 1]) * 16 + UnHex(s[i + 2])] + t)
            else if s[i] == UNDERSCORE || 0x20 <= s[i] <= 0x7E || s[i] in {9, LF, CR} then
              match QDecoded(s[i + 1..]) case None => None case Some(t) => Some([if s[i] == UNDERSCORE then SPACE else s[i]] + t)
            else None
  {
    assert s[i..][1..] == s[i + 1..];
    if s[i] == EQUALS && i + 2 < |s| { assert s[i..][3..] == s[i + 3..]; }
  }

  /** What is decoded so far, and the rest. */
  ghost predicate Decoding(s: str, i: nat, done: str)
    requires i <= |s|
  {
    QDecoded(s) == match QDecoded(s[i..]) case None => None case Some(t) => Some(done + t)
  }

  lemma DecodingStep(s: str, i: nat, done: str, k: nat, c: byte)
    requires i < |s| && i + k <= |s| && Decoding(s, i, done)
    requires QDecoded(s[i..]) == match QDecoded(s[i + k..]) case None => None case Some(t) => Some([c] + t)
    ensures Decoding(s, i + k, done + [c])
  {
    if QDecoded(s[i + k..]).Some? {
      var t := QDecoded(s[i + k..]).value;
      assert done + ([c] + t) == done + [c] + t;
    }
  }

  /** The decoded bytes fit into a buffer of the length of the text. */
  method QDecode(s: str) returns (r: Option<str>)
    ensures r == QDecoded(s)
  {
    hide QDecoded, IsHex, UnHex;
    var dec := new byte[|s|];
    var n, i := 0, 0;
    DecodingStarts(s);
    assert dec[..0] == [];
    while i < |s|
      invariant 0 <= n <= i <= |s| && Decoding(s, i, dec[..n])
    {
      var c := s[i];
      ghost var done := dec[..n];
      QStep(s, i);
      if c == UNDERSCORE {
        dec[n] := SPACE;
        DecodingStep(s, i, done, 1, SPACE);
      } else if c == EQUALS {
        if i + 2 >= |s| || !IsHex(s[i + 1]) || !IsHex(s[i + 2]) {
          return None;
        }
        dec[n] := UnHex(s[i + 1]) * 16 + UnHex(s[i + 2]);
        DecodingStep(s, i, done, 3, dec[n]);
        i := i + 2;
      } else if (c <= 0x7E && c >= 0x20) || c == LF || c == CR || c == 9 {
        dec[n] := c;
        DecodingStep(s, i, done, 1, c);
      } else {
        return None;
      }
      assert dec[..n + 1] == done + [dec[n]];
      n := n + 1;
      i := i + 1;
    }
    assert s[i..] == [];
    QNothing();
    assert dec[..n] + [] == dec[..n];
    return Some(dec[..n]);
  }

  lemma DecodingStarts(s: str)
    ensures Decoding(s, 0, [])
  {
    assert s[0..] == s;
    if QDecoded(s).Some? { assert [] + QDecoded(s).value == QDecoded(s).value; }
  }

  /** DecodeHeader's loop: what is written, and the header that is left. */
  method DecodeHeader(d: Decoder, header: str) returns (r: Option<str>)
    ensures r == DecodedHeader(d, header)
  {
    hide FindWord, DecodedText, Converted, IndexPair;
    var i := IndexPair(header, EQUALS, QUESTION);
    if i == -1 {
      return Some(header);
    }
    var buf := header[..i];
    var h := header[i..];
    var betweenWords := false;
    while true
      invariant DecodedHeader(d, header) ==
                match DecodedRest(d, h, betweenWords) case None => None case Some(rest) => Some(buf + rest)
      decreases |h|
    {
      var found := FindWord(h);
      if found == None {
        break;
      }
      var f := found.value;
      var content := DecodedText(d, f.encoding, f.text);
      if content == None {
        Appended(buf, h[..f.start + 2], DecodedRest(d, h[f.start + 2..], false));
        betweenWords := false;
        buf := buf + h[..f.start + 2];
        h := h[f.start + 2..];
        continue;
      }
      ghost var start := buf;
      if f.start > 0 && (!betweenWords || HasNonWhitespace(h[..f.start])) {
        buf := buf + h[..f.start];
      }
      var text := Converted(d, f.charset, content.value);
      if text == None {
        return None;
      }
      Appended(buf, text.value, DecodedRest(d, h[f.end..], true));
      AppendedAfter(start, h[..f.start], text.value, DecodedRest(d, h[f.end..], true));
      buf := buf + text.value;
      h := h[f.end..];
      betweenWords := true;
    }
    return Some(buf + h);
  }

  lemma Appended(a: str, b: str, rest: Option<str>)
    ensures rest.Some? ==> a + (b + rest.value) == a + b + rest.value
    ensures rest.Some? ==> a + ([] + b + rest.value) == a + b + rest.value
  {}

  lemma AppendedAfter(a: str, b: str, c: str, rest: Option<str>)
    ensures rest.Some? ==> a + (b + c + rest.value) == a + b + c + rest.value
  {}
}
