/** src/bufio/scan.go: the split functions, and what makes the tokens they find
    independent of how the input arrives. */
module BufioSplit {
  import opened Basics
  import opened Utf8

  datatype SplitError = FinalToken | SplitFailure(id: nat)

  datatype SplitResult = SplitResult(advance: int, token: Option<seq<byte>>, err: Option<SplitError>)

  type SplitFunc = (seq<byte>, bool) -> SplitResult

  function More(advance: int): SplitResult { SplitResult(advance, None, None) }

  function Token(advance: int, token: seq<byte>): SplitResult { SplitResult(advance, Some(token), None) }

  // ----- the split functions -----

  function ScanBytes(data: seq<byte>, atEOF: bool): SplitResult {
    if data == [] then More(0) else Token(1, data[..1])
  }

  function ScanRunes(data: seq<byte>, atEOF: bool): SplitResult {
    if data == [] then More(0)
    else if data[0] < RUNE_SELF then Token(1, data[..1])
    else
      var width := DecodeRune(data).1;
      if width > 1 then Token(width, data[..width])
      else if !atEOF && !FullRune(data) then More(0)
      else Token(1, EncodeRune(RUNE_ERROR))
  }

  function ScanLines(data: seq<byte>, atEOF: bool): SplitResult {
    if atEOF && data == [] then More(0)
    else
      var i := IndexByte(data, LF);
      if i >= 0 then Token(i + 1, DropCR(data[..i]))
      else if atEOF then Token(|data|, DropCR(data))
      else More(0)
  }

  predicate IsSpace(r: int) {
    if r <= 0xFF then r in {0x20, 0x09, 0x0A, 0x0B, 0x0C, 0x0D, 0x85, 0xA0}
    else 0x2000 <= r <= 0x200A || r in {0x1680, 0x2028, 0x2029, 0x202F, 0x205F, 0x3000}
  }

  /** The 25 characters with the property White_Space in the Unicode character
      database. */
  const WHITE_SPACE: set<int> := {
    0x09, 0x0A, 0x0B, 0x0C, 0x0D, 0x20, 0x85, 0xA0, 0x1680,
    0x2000, 0x2001, 0x2002, 0x2003, 0x2004, 0x2005, 0x2006, 0x2007, 0x2008, 0x2009, 0x200A,
    0x2028, 0x2029, 0x202F, 0x205F, 0x3000
  }

  lemma SpacesAreWhiteSpace(r: int)
    ensures IsSpace(r) <==> r in WHITE_SPACE
  {}

  /** How many bytes of spaces data starts with. */
  function Skip(data: seq<byte>): (n: nat)
    ensures n <= |data|
    decreases |data|
  {
    if data == [] then 0
    else
      var (r, width) := DecodeRune(data);
      if IsSpace(r) then width + Skip(data[width..]) else 0
  }

  function Shift(p: Option<(nat, nat)>, k: nat): Option<(nat, nat)> {
    match p
    case None => None
    case Some(q) => Some((k + q.0, q.1))
  }

  /** The position and the width of the first space. */
  function FindSpace(data: seq<byte>): (p: Option<(nat, nat)>)
    ensures p.Some? ==> p.value.1 > 0 && p.value.0 + p.value.1 <= |data|
    decreases |data|
  {
    if data == [] then None
    else
      var (r, width) := DecodeRune(data);
      if IsSpace(r) then Some((0, width))
      else
        Shift(FindSpace(data[width..]), width)
  }

  function ScanWords(data: seq<byte>, atEOF: bool): SplitResult {
    var start := Skip(data);
    match FindSpace(data[start..])
    case Some((i, width)) => Token(start + i + width, data[start..start + i])
    case None => if atEOF && |data| > start then Token(|data|, data[start..]) else More(start)
  }

  lemma SkipStep(d: seq<byte>)
    requires d != []
    ensures var (r, width) := DecodeRune(d); Skip(d) == if IsSpace(r) then width + Skip(d[width..]) else 0
  {}

  lemma FindStep(d: seq<byte>)
    requires d != []
    ensures var (r, width) := DecodeRune(d);
            FindSpace(d) == if IsSpace(r) then Some((0, width)) else Shift(FindSpace(d[width..]), width)
  {}

  lemma SkipEnd()
    ensures Skip([]) == 0 && FindSpace([]) == None
  {}

  /** ScanWords as the source runs it, over indices. */
  method ScanWordsLoop(data: seq<byte>, atEOF: bool) returns (result: SplitResult)
    ensures result == ScanWords(data, atEOF)
  {
    hide Skip, FindSpace, DecodeRune;
    SkipEnd();
    var start: nat := 0;
    assert data[0..] == data;
    while start < |data|
      invariant start <= |data| && Skip(data) == start + Skip(data[start..])
    {
      var (r, width) := DecodeRune(data[start..]);
      SkipStep(data[start..]);
      if !IsSpace(r) {
        break;
      }
      assert data[start..][width..] == data[start + width..];
      start := start + width;
    }
    assert Skip(data[start..]) == 0;
    var i: nat := start;
    while i < |data|
      invariant start <= i <= |data|
      invariant FindSpace(data[start..]) == Shift(FindSpace(data[i..]), i - start)
    {
      var (r, width) := DecodeRune(data[i..]);
      FindStep(data[i..]);
      if IsSpace(r) {
        return Token(i + width, data[start..i]);
      }
      assert data[i..][width..] == data[i + width..];
      i := i + width;
    }
    return if atEOF && |data| > start then Token(|data|, data[start..]) else More(start);
  }

  // ----- lawful splitting -----

  /** What split makes of d does not depend on what comes after: a token it
      finds is found with more data too, and what it skips changes nothing. */
  ghost predicate LawfulAt(split: SplitFunc, d: seq<byte>, m: seq<byte>, atEOF: bool) {
    var x, y := split(d, false), split(d + m, atEOF);
    && x.err == None && 0 <= x.advance <= |d|
    && if x.token.Some? then x.advance > 0 && y == x
       else var z := split(d[x.advance..] + m, atEOF); y == z.(advance := x.advance + z.advance)
  }

  ghost predicate LawfulEnd(split: SplitFunc, d: seq<byte>) {
    var x := split(d, true);
    x.err == None && 0 <= x.advance <= |d| && (x.token.Some? ==> x.advance > 0)
  }

  ghost predicate Lawful(split: SplitFunc) {
    && (forall d: seq<byte>, m: seq<byte>, atEOF: bool :: d != [] ==> LawfulAt(split, d, m, atEOF))
    && (forall d: seq<byte> :: LawfulEnd(split, d))
  }

  /** The specification: the tokens of a whole input. */
  ghost function Tokens(split: SplitFunc, data: seq<byte>): seq<seq<byte>>
    requires Lawful(split)
    decreases |data|
  {
    assert LawfulEnd(split, data);
    var x := split(data, true);
    if x.token == None then [] else [x.token.value] + Tokens(split, data[x.advance..])
  }

  lemma BytesLawful()
    ensures Lawful(ScanBytes)
  {
    forall d: seq<byte>, m: seq<byte>, atEOF: bool | d != []
      ensures LawfulAt(ScanBytes, d, m, atEOF)
    {
      assert (d + m)[..1] == d[..1];
    }
  }

  lemma RunesLawful()
    ensures Lawful(ScanRunes)
  {
    forall d: seq<byte>, m: seq<byte>, atEOF: bool | d != []
      ensures LawfulAt(ScanRunes, d, m, atEOF)
    {
      if FullRune(d) {
        FullRuneStable(d, m);
        var width := DecodeRune(d).1;
        assert (d + m)[..1] == d[..1];
        assert (d + m)[..width] == d[..width];
      } else {
        Incomplete(d);
        assert d[0..] == d;
      }
    }
  }

  lemma LinesLawful()
    ensures Lawful(ScanLines)
  {
    forall d: seq<byte>, m: seq<byte>, atEOF: bool | d != []
      ensures LawfulAt(ScanLines, d, m, atEOF)
    {
      var i := IndexByte(d, LF);
      if i >= 0 {
        assert (d + m)[..i] == d[..i];
        IndexByteIs(d + m, LF, i);
      } else {
        assert d[0..] == d;
      }
    }
  }

  lemma SpaceIsFull(d: seq<byte>, m: seq<byte>)
    requires d != [] && IsSpace(DecodeRune(d).0)
    ensures DecodeRune(d + m) == DecodeRune(d)
  {
    if !FullRune(d) { Incomplete(d); }
    FullRuneStable(d, m);
  }

  lemma {:induction false} SkipStable(d: seq<byte>, m: seq<byte>)
    ensures Skip(d + m) == Skip(d) + Skip(d[Skip(d)..] + m)
    decreases |d|
  {
    hide DecodeRune, IsSpace, Skip;
    if d == [] {
      SkipEnd();
      assert d + m == m && d[0..] + m == m;
    } else {
      SkipStep(d);
      if IsSpace(DecodeRune(d).0) {
        var width := DecodeRune(d).1;
        SpaceIsFull(d, m);
        SkipStable(d[width..], m);
        SkipStep(d + m);
        assert (d + m)[width..] == d[width..] + m;
        assert d[width..][Skip(d[width..])..] == d[Skip(d)..];
      } else {
        assert d[0..] + m == d + m;
      }
    }
  }

  lemma {:induction false} ContinuationsHaveNoSpace(d: seq<byte>)
    requires forall k :: 0 <= k < |d| ==> Continues(d[k])
    ensures FindSpace(d) == None
    decreases |d|
  {
    if d != [] { ContinuationsHaveNoSpace(d[1..]); }
  }

  lemma IncompleteHasNoSpace(d: seq<byte>)
    requires d != [] && !FullRune(d)
    ensures FindSpace(d) == None && Skip(d) == 0
  {
    Incomplete(d);
    ContinuationsHaveNoSpace(d[1..]);
  }

  lemma {:induction false} FindStable(d: seq<byte>, m: seq<byte>)
    requires FindSpace(d).Some?
    ensures FindSpace(d + m) == FindSpace(d)
    decreases |d|
  {
    hide DecodeRune, IsSpace, FindSpace, FullRune;
    FindNothing();
    if !FullRune(d) { IncompleteHasNoSpace(d); }
    FullRuneStable(d, m);
    FindStep(d);
    FindStep(d + m);
    var (r, width) := DecodeRune(d);
    assert (d + m)[width..] == d[width..] + m;
    if !IsSpace(r) {
      FindStable(d[width..], m);
    }
  }

  lemma FindNothing()
    ensures FindSpace([]) == None
  {}

  lemma {:induction false} SkipIsMaximal(d: seq<byte>)
    ensures Skip(d[Skip(d)..]) == 0
    decreases |d|
  {
    if d != [] && IsSpace(DecodeRune(d).0) {
      var width := DecodeRune(d).1;
      SkipIsMaximal(d[width..]);
      assert d[width..][Skip(d[width..])..] == d[Skip(d)..];
    } else {
      assert d[0..] == d;
    }
  }

  function Plus(k: nat, r: SplitResult): SplitResult { r.(advance := k + r.advance) }

  /** The word after the spaces. */
  function FirstWord(e: seq<byte>, atEOF: bool): SplitResult {
    match FindSpace(e)
    case Some((i, width)) => Token(i + width, e[..i])
    case None => if atEOF && |e| > 0 then Token(|e|, e) else More(0)
  }

  lemma WordsIsFirstWord(d: seq<byte>, atEOF: bool)
    ensures ScanWords(d, atEOF) == Plus(Skip(d), FirstWord(d[Skip(d)..], atEOF))
  {
    hide Skip, FindSpace;
    var t := Skip(d);
    var e := d[t..];
    if FindSpace(e).Some? {
      var i := FindSpace(e).value.0;
      assert d[t..t + i] == e[..i];
    }
  }

  /** Leading spaces only move the word. */
  lemma WordsAfter(d: seq<byte>, s: nat, atEOF: bool)
    requires s <= |d| && Skip(d) == s + Skip(d[s..])
    ensures ScanWords(d, atEOF) == Plus(s, ScanWords(d[s..], atEOF))
  {
    hide Skip, FindSpace, ScanWords, FirstWord;
    WordsIsFirstWord(d, atEOF);
    WordsIsFirstWord(d[s..], atEOF);
    assert d[s..][Skip(d[s..])..] == d[Skip(d)..];
  }

  lemma WordStable(e: seq<byte>, m: seq<byte>, atEOF: bool)
    requires Skip(e) == 0 && FindSpace(e).Some?
    ensures ScanWords(e + m, atEOF) == ScanWords(e, false)
  {
    hide DecodeRune, FullRune;
    if !FullRune(e) { IncompleteHasNoSpace(e); }
    FullRuneStable(e, m);
    FindStable(e, m);
    var i := FindSpace(e).value.0;
    assert e[0..] == e && (e + m)[0..] == e + m;
    assert (e + m)[..i] == e[..i];
  }

  lemma WordsLawfulAt(d: seq<byte>, m: seq<byte>, atEOF: bool)
    requires d != []
    ensures LawfulAt(ScanWords, d, m, atEOF)
  {
    hide Skip, FindSpace, DecodeRune;
    var s := Skip(d);
    var e := d[s..];
    SkipStable(d, m);
    SkipIsMaximal(d);
    assert (d + m)[s..] == e + m;
    WordsAfter(d + m, s, atEOF);
    if FindSpace(e).Some? {
      WordsAfter(d, s, false);
      WordStable(e, m, atEOF);
    }
  }

  lemma WordsLawful()
    ensures Lawful(ScanWords)
  {
    forall d: seq<byte>, m: seq<byte>, atEOF: bool | d != []
      ensures LawfulAt(ScanWords, d, m, atEOF)
    {
      WordsLawfulAt(d, m, atEOF);
    }
  }

  // ----- what the tokens are -----

  lemma LineTokens(line: seq<byte>, rest: seq<byte>)
    requires Lawful(ScanLines) && LF !in line
    ensures Tokens(ScanLines, line + [LF] + rest) == [DropCR(line)] + Tokens(ScanLines, rest)
    ensures Tokens(ScanLines, line) == if line == [] then [] else [DropCR(line)]
  {
    var s := line + [LF] + rest;
    assert s[..|line|] == line;
    IndexByteIs(s, LF, |line|);
    assert s[|line| + 1..] == rest;
    assert line[|line|..] == [];
  }

  /** A space is dropped before a word. */
  lemma SpaceToken(space: seq<byte>, rest: seq<byte>)
    requires Lawful(ScanWords) && space != []
    requires IsSpace(DecodeRune(space).0) && DecodeRune(space).1 == |space|
    ensures Tokens(ScanWords, space + rest) == Tokens(ScanWords, rest)
  {
    var s, n := space + rest, |space|;
    SpaceIsFull(space, rest);
    assert s[n..] == rest;
    WordsAfter(s, n, true);
    assert LawfulEnd(ScanWords, rest) && LawfulEnd(ScanWords, s);
    var k := ScanWords(rest, true).advance;
    assert s[n + k..] == rest[k..];
  }

  /** No space in word, whatever it is followed by. */
  predicate IsWord(word: seq<byte>) {
    word != [] && FindSpace(word) == None
  }

  lemma {:induction false} WordEnds(word: seq<byte>, space: seq<byte>, rest: seq<byte>)
    requires FindSpace(word) == None && space != []
    requires IsSpace(DecodeRune(space).0) && DecodeRune(space).1 == |space|
    ensures FindSpace(word + space + rest) == Some((|word|, |space|))
    ensures word != [] ==> Skip(word + space + rest) == 0
    decreases |word|
  {
    var m := space + rest;
    assert word + space + rest == word + m;
    if word == [] {
      assert word + m == m;
      SpaceIsFull(space, rest);
    } else {
      var width := DecodeRune(word).1;
      DecodeBefore(word, m);
      assert (word + m)[width..] == word[width..] + m;
      assert word[width..] + space + rest == word[width..] + m;
      WordEnds(word[width..], space, rest);
    }
  }

  /** A space does not complete an encoding. */
  lemma DecodeBefore(word: seq<byte>, m: seq<byte>)
    requires word != [] && m != [] && !Continues(m[0])
    ensures DecodeRune(word + m) == DecodeRune(word)
  {
    if FullRune(word) {
      FullRuneStable(word, m);
    } else {
      Incomplete(word);
      assert (word + m)[|word|] == m[0];
    }
  }

  lemma NoLeadingSpace(word: seq<byte>)
    requires IsWord(word)
    ensures Skip(word) == 0
  {}

  lemma LastWord(word: seq<byte>)
    requires Lawful(ScanWords) && IsWord(word)
    ensures Tokens(ScanWords, word) == [word]
  {
    hide Skip, FindSpace, DecodeRune;
    NoLeadingSpace(word);
    assert word[0..] == word && word[|word|..] == [];
    assert ScanWords(word, true) == Token(|word|, word);
    NoTokens();
  }

  lemma NoTokens()
    requires Lawful(ScanWords)
    ensures Tokens(ScanWords, []) == []
  {
    assert LawfulEnd(ScanWords, []);
  }

  lemma WordTokens(word: seq<byte>, space: seq<byte>, rest: seq<byte>)
    requires Lawful(ScanWords) && IsWord(word) && space != []
    requires IsSpace(DecodeRune(space).0) && DecodeRune(space).1 == |space|
    ensures Tokens(ScanWords, word + space + rest) == [word] + Tokens(ScanWords, rest)
    ensures Tokens(ScanWords, word) == [word]
  {
    hide Skip, FindSpace, DecodeRune, Lawful;
    var s := word + space + rest;
    LastWord(word);
    WordEnds(word, space, rest);
    assert s[0..] == s && s[..|word|] == word && s[|word| + |space|..] == rest;
    assert ScanWords(s, true) == Token(|word| + |space|, word);
  }
}
