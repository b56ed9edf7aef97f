/** src/html/escape.go: escaping, and unescaping in place. */
module HtmlEscape {
  import opened Basics
  import opened Utf8

  const AMP: byte := 38
  const HASH: byte := 35
  const SEMICOLON: byte := 59
  const LONGEST_ENTITY_WITHOUT_SEMICOLON := 6

  // ----- the named entities -----

  /** The tables entity and entity2; a name that is not there, or is there with
      rune 0, has no value. */
  datatype Entities = Entities(one: map<seq<byte>, int>, two: map<seq<byte>, (int, int)>)

  /** What the name stands for; [] if nothing. */
  function One(e: Entities, name: seq<byte>): seq<byte> {
    if name in e.one && e.one[name] != 0 then EncodeRune(e.one[name]) else []
  }

  function Two(e: Entities, name: seq<byte>): seq<byte> {
    if name in e.two && e.two[name].0 != 0 then EncodeRune(e.two[name].0) + EncodeRune(e.two[name].1) else []
  }

  /** No replacement is longer than "&" and the name. */
  ghost predicate TableFits(e: Entities) {
    forall name: seq<byte> :: |One(e, name)| <= 1 + |name| && |Two(e, name)| <= 1 + |name|
  }

  // ----- parsing -----

  predicate IsAlnum(c: byte) { 97 <= c <= 122 || 65 <= c <= 90 || 48 <= c <= 57 }

  predicate IsDigit(c: byte, hex: bool) { 48 <= c <= 57 || (hex && (97 <= c <= 102 || 65 <= c <= 70)) }

  function DigitValue(c: byte): int { if c >= 97 then c - 87 else if c >= 65 then c - 55 else c - 48 }

  /** The arithmetic of int32. */
  function Wrap32(x: int): int { (x + 0x8000_0000) % 0x1_0000_0000 - 0x8000_0000 }

  function AlnumEnd(s: seq<byte>, i: nat): (j: nat)
    requires i <= |s|
    ensures i <= j <= |s|
    decreases |s| - i
  {
    if i < |s| && IsAlnum(s[i]) then AlnumEnd(s, i + 1) else i
  }

  function DigitsEnd(s: seq<byte>, i: nat, hex: bool): (j: nat)
    requires i <= |s|
    ensures i <= j <= |s|
    decreases |s| - i
  {
    if i < |s| && IsDigit(s[i], hex) then DigitsEnd(s, i + 1, hex) else i
  }

  function DigitsValue(s: seq<byte>, i: nat, hex: bool, x: int): int
    requires i <= |s|
    decreases |s| - i
  {
    if i < |s| && IsDigit(s[i], hex)
    then DigitsValue(s, i + 1, hex, Wrap32((if hex then 16 else 10) * x + DigitValue(s[i])))
    else x
  }

  /** Past a semicolon, if there is one. */
  function PastSemicolon(s: seq<byte>, i: nat): (j: nat)
    requires i <= |s|
    ensures i <= j <= |s|
  {
    if i < |s| && s[i] == SEMICOLON then i + 1 else i
  }

  const WINDOWS_1252: seq<int> := [
    0x20AC, 0x81, 0x201A, 0x0192, 0x201E, 0x2026, 0x2020, 0x2021, 0x02C6, 0x2030, 0x0160, 0x2039, 0x0152, 0x8D, 0x017D, 0x8F,
    0x90, 0x2018, 0x2019, 0x201C, 0x201D, 0x2022, 0x2013, 0x2014, 0x02DC, 0x2122, 0x0161, 0x203A, 0x0153, 0x9D, 0x017E, 0x0178
  ]

  function FixRune(x: int): int {
    if 0x80 <= x <= 0x9F then WINDOWS_1252[x - 0x80]
    else if x == 0 || 0xD800 <= x <= 0xDFFF || x > MAX_RUNE then RUNE_ERROR
    else x
  }

  /** The longest prefix of the name, of at most j bytes, with a value. */
  function PrefixLength(e: Entities, name: seq<byte>, j: int): (k: nat)
    requires j <= |name|
    ensures k == 0 || (1 < k <= j && One(e, name[..k]) != [])
    decreases if j < 0 then 0 else j
  {
    if j <= 1 then 0 else if One(e, name[..j]) != [] then j else PrefixLength(e, name, j - 1)
  }

  function Max(name: seq<byte>): (j: int)
    ensures j < |name|
  {
    if |name| - 1 > LONGEST_ENTITY_WITHOUT_SEMICOLON then LONGEST_ENTITY_WITHOUT_SEMICOLON else |name| - 1
  }

  /** What a name stands for, and how much of the reference is used for it. */
  function NamedValue(e: Entities, name: seq<byte>): (r: Option<(seq<byte>, nat)>)
    ensures r.Some? ==> 0 < r.value.1 <= |name| + 1
  {
    if name == [] then None
    else if One(e, name) != [] then Some((One(e, name), |name| + 1))
    else if Two(e, name) != [] then Some((Two(e, name), |name| + 1))
    else
      var k := PrefixLength(e, name, Max(name));
      if k > 0 then Some((One(e, name[..k]), k + 1)) else None
  }

  function Named(e: Entities, s: seq<byte>): (r: (seq<byte>, nat))
    requires |s| > 1
    ensures 0 < r.1 <= |s|
  {
    var i := PastSemicolon(s, AlnumEnd(s, 1));
    match NamedValue(e, s[1..i])
    case Some(found) => found
    case None => (s[..i], i)
  }

  function Numeric(s: seq<byte>): (r: (seq<byte>, nat))
    requires |s| > 3
    ensures 0 < r.1 <= |s|
  {
    var hex := s[2] == 120 || s[2] == 88;
    var start := if hex then 3 else 2;
    var i := PastSemicolon(s, DigitsEnd(s, start, hex));
    if i <= 3 then (s[..1], 1) else (EncodeRune(FixRune(DigitsValue(s, start, hex, 0))), i)
  }

  /** What the reference at the start of s stands for, and its length. */
  function Reference(e: Entities, s: seq<byte>): (r: (seq<byte>, nat))
    requires s != []
    ensures 0 < r.1 <= |s|
  {
    if |s| <= 1 || (s[1] == HASH && |s| <= 3) then (s[..1], 1)
    else if s[1] == HASH then Numeric(s)
    else Named(e, s)
  }

  /** The specification: text, with its references replaced. */
  function Unescaped(e: Entities, s: seq<byte>): seq<byte>
    decreases |s|
  {
    if s == [] then []
    else if s[0] == AMP then
      var (out, n) := Reference(e, s);
      out + Unescaped(e, s[n..])
    else [s[0]] + Unescaped(e, s[1..])
  }

  /** No reference stands for more bytes than it has itself. */
  lemma ReferenceFits(e: Entities, s: seq<byte>)
    requires TableFits(e) && s != []
    ensures |Reference(e, s).0| <= Reference(e, s).1
  {
    if |s| > 1 && s[1] != HASH {
      var name := s[1..PastSemicolon(s, AlnumEnd(s, 1))];
      assert |One(e, name)| <= 1 + |name| && |Two(e, name)| <= 1 + |name|;
      var k := PrefixLength(e, name, Max(name));
      assert |One(e, name[..k])| <= 1 + |name[..k]|;
    }
  }

  /** Why two references of the standard are left out of the table: "&nLt;"
      would be longer unescaped. */
  lemma WiderThanItsName()
    ensures var e := Entities(map[], map[[110, 76, 116, 59] := (0x226A, 0x20D2)]);
            !TableFits(e) && |Unescaped(e, [38, 110, 76, 116, 59])| == 6
  {
    var name: seq<byte> := [110, 76, 116, 59];
    var e := Entities(map[], map[name := (0x226A, 0x20D2)]);
    var s: seq<byte> := [38, 110, 76, 116, 59];
    assert |Two(e, name)| == 6;
    assert AlnumEnd(s, 4) == 4 && AlnumEnd(s, 3) == 4 && AlnumEnd(s, 2) == 4 && AlnumEnd(s, 1) == 4;
    assert s[1..5] == name && One(e, name) == [];
    assert Named(e, s) == (Two(e, name), 5);
    assert s[5..] == [];
  }

  // ----- in place -----

  /** The two cursors: what is before dst is written, what is from src on is
      still to be read, and untouched. */
  method UnescapeEntity(e: Entities, b: array<byte>, dst: nat, src: nat) returns (dst1: nat, src1: nat)
    requires TableFits(e) && dst <= src < b.Length
    modifies b
    ensures var (out, n) := Reference(e, old(b[src..]));
            && src1 == src + n <= b.Length && dst1 == dst + |out| <= src1
            && b[..dst1] == old(b[..dst]) + out
    ensures b[src1..] == old(b[src1..])
  {
    hide Reference, TableFits;
    ReferenceFits(e, b[src..]);
    var out, n := ParseReference(e, b, src);
    dst1 := Write(b, dst, out);
    src1 := src + n;
    assert b[src1..] == b[dst1..][src1 - dst1..];
    assert old(b[src1..]) == old(b[dst1..])[src1 - dst1..];
  }

  method ParseReference(e: Entities, b: array<byte>, src: nat) returns (out: seq<byte>, n: nat)
    requires src < b.Length
    ensures (out, n) == Reference(e, b[src..])
  {
    ghost var s := b[src..];
    var length := b.Length - src;
    assert b[src..src + 1] == s[..1];
    if length <= 1 || (b[src + 1] == HASH && length <= 3) {
      return b[src..src + 1], 1;
    }
    if b[src + 1] == HASH {
      var x, i := ParseNumber(b, src);
      if i <= 3 {
        return b[src..src + 1], 1;
      }
      return EncodeRune(FixRune(x)), i;
    }
    out, n := ParseName(e, b, src);
  }

  method ParseName(e: Entities, b: array<byte>, src: nat) returns (out: seq<byte>, n: nat)
    requires src + 1 < b.Length
    ensures (out, n) == Named(e, b[src..])
  {
    hide AlnumEnd, IsAlnum;
    ghost var s := b[src..];
    var i := 1;
    while i < b.Length - src && IsAlnum(b[src + i])
      invariant 1 <= i <= |s| && AlnumEnd(s, 1) == AlnumEnd(s, i)
    {
      AlnumStep(s, i);
      i := i + 1;
    }
    AlnumStep(s, i);
    if i < b.Length - src && b[src + i] == SEMICOLON {
      i := i + 1;
    }
    var name := b[src + 1..src + i];
    SliceOf(b[..], src, 1, i);
    SliceOf(b[..], src, 0, i);
    assert b[..][src..] == s && name == s[1..i] && b[src..src + i] == s[..i];
    var found := Lookup(e, name);
    return if found.Some? then found.value.0 else b[src..src + i], if found.Some? then found.value.1 else i;
  }

  lemma SliceOf(t: seq<byte>, src: nat, i: nat, j: nat)
    requires i <= j && src + j <= |t|
    ensures t[src..][i..j] == t[src + i..src + j]
  {}

  lemma AlnumStep(s: seq<byte>, i: nat)
    requires i <= |s|
    ensures AlnumEnd(s, i) == if i < |s| && IsAlnum(s[i]) then AlnumEnd(s, i + 1) else i
  {}

  /** What the name, or the longest prefix of it with a value, stands for. */
  method Lookup(e: Entities, name: seq<byte>) returns (r: Option<(seq<byte>, nat)>)
    ensures r == NamedValue(e, name)
  {
    hide One, Two;
    if name == [] {
      return None;
    }
    if One(e, name) != [] {
      return Some((One(e, name), |name| + 1));
    }
    if Two(e, name) != [] {
      return Some((Two(e, name), |name| + 1));
    }
    var j := Max(name);
    while j > 1
      invariant j <= Max(name) && PrefixLength(e, name, Max(name)) == PrefixLength(e, name, j)
    {
      if One(e, name[..j]) != [] {
        return Some((One(e, name[..j]), j + 1));
      }
      j := j - 1;
    }
    return None;
  }

  /** copy and utf8.EncodeRune. */
  method Write(b: array<byte>, dst: nat, out: seq<byte>) returns (dst1: nat)
    requires dst + |out| <= b.Length
    modifies b
    ensures dst1 == dst + |out| && b[..dst1] == old(b[..dst]) + out && b[dst1..] == old(b[dst1..])
  {
    forall i | 0 <= i < |out| {
      b[dst + i] := out[i];
    }
    dst1 := dst + |out|;
  }

  method ParseNumber(b: array<byte>, src: nat) returns (x: int, i: nat)
    requires src + 3 < b.Length
    ensures var s := b[src..];
            var hex := s[2] == 120 || s[2] == 88;
            var start := if hex then 3 else 2;
            x == DigitsValue(s, start, hex, 0) && i == PastSemicolon(s, DigitsEnd(s, start, hex))
  {
    ghost var s := b[src..];
    i := 2;
    var c := b[src + i];
    var hex := c == 120 || c == 88;
    if hex {
      i := i + 1;
    }
    x := 0;
    ghost var start := i;
    while i < b.Length - src && IsDigit(b[src + i], hex)
      invariant start <= i <= |s| && DigitsEnd(s, start, hex) == DigitsEnd(s, i, hex)
      invariant DigitsValue(s, start, hex, 0) == DigitsValue(s, i, hex, x)
    {
      x := Wrap32((if hex then 16 else 10) * x + DigitValue(b[src + i]));
      i := i + 1;
    }
    if i < b.Length - src && b[src + i] == SEMICOLON {
      i := i + 1;
    }
  }

  lemma {:induction false} PlainText(e: Entities, s: seq<byte>, i: nat)
    requires i <= |s| && AMP !in s[..i]
    ensures Unescaped(e, s) == s[..i] + Unescaped(e, s[i..])
    decreases i
  {
    hide Unescaped;
    if i > 0 {
      assert s[..i] == [s[0]] + s[1..][..i - 1] && s[..i][0] == s[0];
      PlainText(e, s[1..], i - 1);
      PlainByte(e, s);
      assert s[1..][i - 1..] == s[i..];
      assert [s[0]] + (s[1..][..i - 1] + Unescaped(e, s[i..])) == s[..i] + Unescaped(e, s[i..]);
    } else {
      assert s[0..] == s && s[..0] == [];
    }
  }

  lemma PlainByte(e: Entities, s: seq<byte>)
    requires s != [] && s[0] != AMP
    ensures Unescaped(e, s) == [s[0]] + Unescaped(e, s[1..])
  {}

  /** One reference: what is written, and what is left to read. */
  lemma AfterReference(e: Entities, s: seq<byte>, i: nat)
    requires i < |s| && AMP !in s[..i] && s[i] == AMP
    ensures var (out, n) := Reference(e, s[i..]);
            Unescaped(e, s) == s[..i] + out + Unescaped(e, s[i + n..])
  {
    hide Reference;
    var (out, n) := Reference(e, s[i..]);
    PlainText(e, s, i);
    UnescapedReference(e, s[i..]);
    hide Unescaped;
    assert s[i..][n..] == s[i + n..];
    assert s[..i] + (out + Unescaped(e, s[i + n..])) == s[..i] + out + Unescaped(e, s[i + n..]);
  }

  lemma UnescapedReference(e: Entities, s: seq<byte>)
    requires s != [] && s[0] == AMP
    ensures var (out, n) := Reference(e, s); Unescaped(e, s) == out + Unescaped(e, s[n..])
  {
    hide Reference;
  }

  /** Text up to the next reference, and the reference. */
  method UnescapeNext(e: Entities, b: array<byte>, s: seq<byte>, dst: nat, src: nat, i: nat)
    returns (dst1: nat, src1: nat)
    requires TableFits(e) && |s| == b.Length && dst <= src && src + i < |s| && b[src..] == s[src..]
    requires AMP !in s[src..src + i] && s[src + i] == AMP
    modifies b
    ensures dst1 <= src1 <= |s| && src < src1 && b[src1..] == s[src1..]
    ensures b[..dst1] + Unescaped(e, s[src1..]) == old(b[..dst]) + Unescaped(e, s[src..])
  {
    hide Reference, TableFits, Unescaped, IndexByte;
    ghost var have, text, at := b[..dst], s[src..src + i], s[src + i..];
    assert b[src + i..] == b[src..][i..] == s[src..][i..] == at;
    var mid := Write(b, dst, s[src..src + i]);
    assert b[src + i..] == b[mid..][src + i - mid..];
    assert b[src + i..] == at;
    dst1, src1 := UnescapeEntity(e, b, dst + i, src + i);
    NextReference(e, s, have, src, i);
  }

  lemma NextReference(e: Entities, s: seq<byte>, have: seq<byte>, src: nat, i: nat)
    requires src + i < |s| && AMP !in s[src..src + i] && s[src + i] == AMP
    ensures var (out, n) := Reference(e, s[src + i..]);
            have + s[src..src + i] + out + Unescaped(e, s[src + i + n..]) == have + Unescaped(e, s[src..])
  {
    hide Reference, Unescaped;
    AfterReference(e, s[src..], i);
    var text, at := s[src..src + i], s[src + i..];
    assert s[src..][..i] == text && s[src..][i..] == at;
    var (out, n) := Reference(e, at);
    assert s[src..][i + n..] == s[src + i + n..];
    var rest := Unescaped(e, s[src + i + n..]);
    assert have + (text + out + rest) == have + text + out + rest;
  }

  lemma NothingUnescaped(e: Entities)
    ensures Unescaped(e, []) == []
  {}

  method UnescapeString(e: Entities, s: seq<byte>) returns (r: seq<byte>)
    requires TableFits(e)
    ensures r == Unescaped(e, s) && |r| <= |s|
  {
    hide Reference, TableFits, Unescaped, IndexByte;
    var i := IndexByte(s, AMP);
    assert s[0..] == s;
    if i < 0 {
      OnlyText(e, s);
      return s;
    }
    var b := new byte[|s|](j requires 0 <= j < |s| => s[j]);
    assert b[..] == s && b[0..] == s;
    var dst, src := UnescapeNext(e, b, s, 0, 0, i);
    while src < |s|
      invariant 0 <= dst <= src <= |s| && b[src..] == s[src..]
      invariant Unescaped(e, s) == b[..dst] + Unescaped(e, s[src..])
    {
      i := if s[src] == AMP then 0 else IndexByte(s[src..], AMP);
      if i < 0 {
        OnlyText(e, s[src..]);
        dst := Write(b, dst, s[src..]);
        return b[..dst];
      }
      assert s[src..src + i] == s[src..][..i];
      dst, src := UnescapeNext(e, b, s, dst, src, i);
    }
    assert s[src..] == [];
    NothingUnescaped(e);
    r := b[..dst];
    assert r + [] == r;
  }

  lemma OnlyText(e: Entities, s: seq<byte>)
    requires AMP !in s
    ensures Unescaped(e, s) == s
  {
    PlainText(e, s, |s|);
    assert s[..|s|] == s && s[|s|..] == [] && s + [] == s;
  }

  // ----- escaping -----

  /** htmlEscaper, on one byte. */
  function EscapeByte(c: byte): seq<byte> {
    match c
    case 38 => [38, 97, 109, 112, 59]
    case 39 => [38, 35, 51, 57, 59]
    case 60 => [38, 108, 116, 59]
    case 62 => [38, 103, 116, 59]
    case 34 => [38, 35, 51, 52, 59]
    case _ => [c]
  }

  function Escaped(s: seq<byte>): seq<byte> {
    if s == [] then [] else EscapeByte(s[0]) + Escaped(s[1..])
  }

  /** The tables have the three names that escaping uses. */
  predicate HasBasics(e: Entities) {
    && One(e, [97, 109, 112, 59]) == [38] && One(e, [108, 116, 59]) == [60] && One(e, [103, 116, 59]) == [62]
  }

  lemma NamedReference(e: Entities, s: seq<byte>, n: nat)
    requires 1 < n < |s| && s[1] != HASH && s[0] == AMP && s[n] == SEMICOLON
    requires forall i :: 1 <= i < n ==> IsAlnum(s[i])
    requires One(e, s[1..n + 1]) != []
    ensures Reference(e, s) == (One(e, s[1..n + 1]), n + 1)
  {
    AlnumTo(s, 1, n);
  }

  lemma {:induction false} AlnumTo(s: seq<byte>, i: nat, n: nat)
    requires i <= n < |s| && !IsAlnum(s[n]) && forall k :: i <= k < n ==> IsAlnum(s[k])
    ensures AlnumEnd(s, i) == n
    decreases n - i
  {
    if i < n { AlnumTo(s, i + 1, n); }
  }

  lemma NumericReference(e: Entities, s: seq<byte>)
    requires |s| >= 5 && s[0] == AMP && s[1] == HASH && s[2] == 51 && 48 <= s[3] <= 57 && s[4] == SEMICOLON
    ensures Reference(e, s) == ([30 + s[3] - 48], 5)
  {
    assert DigitsEnd(s, 4, false) == 4 && DigitsEnd(s, 3, false) == 4;
    assert DigitsValue(s, 4, false, 30 + s[3] as int - 48) == 30 + s[3] as int - 48;
    assert DigitsValue(s, 3, false, 3) == 30 + s[3] as int - 48;
  }

  // ----- named references -----

  lemma {:induction false} LongestPrefix(e: Entities, name: seq<byte>, j: int)
    requires j <= |name|
    ensures forall i :: 1 < i <= j && One(e, name[..i]) != [] ==> i <= PrefixLength(e, name, j)
    decreases if j < 0 then 0 else j
  {
    if j > 1 && One(e, name[..j]) == [] { LongestPrefix(e, name, j - 1); }
  }

  lemma {:induction false} AlnumRun(s: seq<byte>, i: nat, n: nat)
    requires i <= n <= |s| && (forall k :: i <= k < n ==> IsAlnum(s[k])) && (n < |s| ==> !IsAlnum(s[n]))
    ensures AlnumEnd(s, i) == n
    decreases n - i
  {
    hide IsAlnum;
    if i < n { AlnumRun(s, i + 1, n); }
  }

  /** A named reference.  Its name is the longest run of letters and digits, with
      the semicolon if there is one; it stands for its value, or else for that of
      its longest proper prefix of two to six bytes with one, followed by the
      rest; with none it stays. */
  lemma NamedMeaning(e: Entities, s: seq<byte>, n: nat)
    requires |s| > 1 && s[0] == AMP && s[1] != HASH && 1 <= n <= |s|
    requires (forall k :: 1 <= k < n ==> IsAlnum(s[k])) && (n < |s| ==> !IsAlnum(s[n]))
    ensures var m := if n < |s| && s[n] == SEMICOLON then n + 1 else n;
            var name := s[1..m];
            && (name != [] && One(e, name) != [] ==> Reference(e, s) == (One(e, name), m))
            && (name != [] && One(e, name) == [] && Two(e, name) != [] ==> Reference(e, s) == (Two(e, name), m))
            && (name == [] || One(e, name) == [] == Two(e, name) ==>
                  var (out, used) := Reference(e, s);
                  || (out == s[..m] && used == m
                      && forall k :: 1 < k <= 6 && k < |name| ==> One(e, name[..k]) == [])
                  || (2 < used <= 7 && used <= |name| && out == One(e, name[..used - 1]) != []
                      && forall k :: used <= k <= 6 && k < |name| ==> One(e, name[..k]) == []))
  {
    hide One, Two, AlnumEnd;
    AlnumRun(s, 1, n);
    var m := PastSemicolon(s, n);
    var name := s[1..m];
    LongestPrefix(e, name, Max(name));
  }

  // ----- numeric references -----

  /** What the HTML standard makes of numbers that are no characters, in the
      numeric character reference end state: those of windows-1252. */
  const REPLACEMENTS: map<int, int> := map[
    0x80 := 0x20AC, 0x82 := 0x201A, 0x83 := 0x0192, 0x84 := 0x201E, 0x85 := 0x2026, 0x86 := 0x2020, 0x87 := 0x2021,
    0x88 := 0x02C6, 0x89 := 0x2030, 0x8A := 0x0160, 0x8B := 0x2039, 0x8C := 0x0152, 0x8E := 0x017D,
    0x91 := 0x2018, 0x92 := 0x2019, 0x93 := 0x201C, 0x94 := 0x201D, 0x95 := 0x2022, 0x96 := 0x2013, 0x97 := 0x2014,
    0x98 := 0x02DC, 0x99 := 0x2122, 0x9A := 0x0161, 0x9B := 0x203A, 0x9C := 0x0153, 0x9E := 0x017E, 0x9F := 0x0178
  ]

  lemma RuneFixed(x: int)
    ensures FixRune(x) == if x in REPLACEMENTS then REPLACEMENTS[x]
                          else if x == 0 || 0xD800 <= x <= 0xDFFF || x > 0x10FFFF then 0xFFFD
                          else x
  {}

  lemma {:induction false} DigitRun(s: seq<byte>, i: nat, n: nat, hex: bool)
    requires i <= n <= |s| && (forall k :: i <= k < n ==> IsDigit(s[k], hex)) && (n < |s| ==> !IsDigit(s[n], hex))
    ensures DigitsEnd(s, i, hex) == n
    decreases n - i
  {
    hide IsDigit;
    if i < n { DigitRun(s, i + 1, n, hex); }
  }

  /** How much a numeric reference takes: its digits, and the semicolon if there
      is one.  It is none if that is not more than three bytes. */
  lemma NumericLength(e: Entities, s: seq<byte>, n: nat)
    requires |s| > 3 && s[0] == AMP && s[1] == HASH
    requires var hex := s[2] == 120 || s[2] == 88; var start := if hex then 3 else 2;
             && start <= n <= |s| && (forall k :: start <= k < n ==> IsDigit(s[k], hex))
             && (n < |s| ==> !IsDigit(s[n], hex))
    ensures var m := if n < |s| && s[n] == SEMICOLON then n + 1 else n;
            if m <= 3 then Reference(e, s) == ([AMP], 1) else Reference(e, s).1 == m
  {
    hide DigitsEnd, DigitsValue, EncodeRune, IsDigit;
    var hex := s[2] == 120 || s[2] == 88;
    var start := if hex then 3 else 2;
    DigitRun(s, start, n, hex);
    assert s[..1] == [AMP];
  }

  /** The number that the digits from i on make, after x. */
  function Number(s: seq<byte>, i: nat, hex: bool, x: int): int
    requires i <= |s|
    decreases |s| - i
  {
    if i < |s| && IsDigit(s[i], hex) then Number(s, i + 1, hex, (if hex then 16 else 10) * x + DigitValue(s[i])) else x
  }

  lemma WrapShift(x: int, m: int)
    ensures Wrap32(x - m * 0x1_0000_0000) == Wrap32(x)
  {}

  lemma WrapStep(x: int, d: int)
    ensures Wrap32(16 * Wrap32(x) + d) == Wrap32(16 * x + d) && Wrap32(10 * Wrap32(x) + d) == Wrap32(10 * x + d)
  {
    var k := (x + 0x8000_0000) / 0x1_0000_0000;
    assert Wrap32(x) == x - k * 0x1_0000_0000;
    WrapShift(16 * x + d, 16 * k);
    WrapShift(10 * x + d, 10 * k);
  }

  /** Wrapping at each digit is wrapping once. */
  lemma {:induction false} WrapsOnce(s: seq<byte>, i: nat, hex: bool, x: int)
    requires i <= |s|
    ensures DigitsValue(s, i, hex, Wrap32(x)) == Wrap32(Number(s, i, hex, x))
    decreases |s| - i
  {
    hide Wrap32;
    if i < |s| && IsDigit(s[i], hex) {
      var d := DigitValue(s[i]);
      WrapStep(x, d);
      WrapsOnce(s, i + 1, hex, (if hex then 16 else 10) * x + d);
    }
  }

  /** The runes whose encoding is that of U+FFFD. */
  lemma EncodesError(x: int)
    ensures EncodeRune(x) == EncodeRune(RUNE_ERROR) <==> !IsScalar(x) || x == RUNE_ERROR
  {
    hide EncodeRune, DecodeRune;
    if IsScalar(x) {
      DecodeEncoded(x, []);
      DecodeEncoded(RUNE_ERROR, []);
    } else {
      NotScalar(x);
    }
  }

  lemma NotScalar(x: int)
    requires !IsScalar(x)
    ensures EncodeRune(x) == EncodeRune(RUNE_ERROR)
  {}

  /** What a numeric reference for v becomes.  It is U+FFFD exactly if v, wrapped
      at 32 bits, is no positive code point, or is U+FFFD itself: numbers above
      U+10FFFF are not all replaced. */
  lemma NumericMeaning(e: Entities, s: seq<byte>)
    requires |s| > 3 && s[0] == AMP && s[1] == HASH && Reference(e, s).1 > 1
    ensures var hex := s[2] == 120 || s[2] == 88;
            var w := Wrap32(Number(s, if hex then 3 else 2, hex, 0));
            && Reference(e, s).0 == EncodeRune(FixRune(w))
            && (Reference(e, s).0 == EncodeRune(RUNE_ERROR) <==> w <= 0 || !IsScalar(w) || w == RUNE_ERROR)
  {
    hide EncodeRune, DigitsEnd, DigitsValue, Number, Wrap32, FixRune, IsScalar;
    var hex := s[2] == 120 || s[2] == 88;
    var start := if hex then 3 else 2;
    WrapsOnce(s, start, hex, 0);
    WrapZero();
    FixedToError(Wrap32(Number(s, start, hex, 0)));
  }

  lemma FixedToError(w: int)
    ensures EncodeRune(FixRune(w)) == EncodeRune(RUNE_ERROR) <==> w <= 0 || !IsScalar(w) || w == RUNE_ERROR
  {
    hide EncodeRune;
    EncodesError(FixRune(w));
  }

  lemma WrapZero()
    ensures Wrap32(0) == 0
  {}

  lemma NumberStep(s: seq<byte>, i: nat, x: int, c: byte)
    requires i < |s| && s[i] == c
    ensures Number(s, i, true, x) == if IsDigit(c, true) then Number(s, i + 1, true, 16 * x + DigitValue(c)) else x
  {}

  lemma {:induction false} HexDigitsTo(s: seq<byte>, i: nat, n: nat)
    requires i <= n < |s| && !IsDigit(s[n], true) && forall k :: i <= k < n ==> IsDigit(s[k], true)
    ensures DigitsEnd(s, i, true) == n
    decreases n - i
  {
    if i < n { HexDigitsTo(s, i + 1, n); }
  }

  /** "&#x100000041;" */
  const OVER: seq<byte> := [38, 35, 120, 49, 48, 48, 48, 48, 48, 48, 52, 49, 59]

  lemma NumberOfOver()
    ensures Number(OVER, 3, true, 0) == 0x1_0000_0041
  {
    hide Number;
    NumberStep(OVER, 3, 0, 49);
    NumberStep(OVER, 4, 0x1, 48);
    NumberStep(OVER, 5, 0x10, 48);
    NumberStep(OVER, 6, 0x100, 48);
    NumberStep(OVER, 7, 0x1000, 48);
    NumberStep(OVER, 8, 0x1_0000, 48);
    NumberStep(OVER, 9, 0x10_0000, 48);
    NumberStep(OVER, 10, 0x100_0000, 52);
    NumberStep(OVER, 11, 0x1000_0004, 49);
    NumberStep(OVER, 12, 0x1_0000_0041, 59);
  }

  /** 2^32 + 65 comes out as the letter A. */
  lemma NumberWraps(e: Entities)
    ensures Number(OVER, 3, true, 0) == 0x1_0000_0041 > MAX_RUNE && Reference(e, OVER) == ([65], 13)
  {
    hide Number, DigitsEnd, DigitsValue;
    NumberOfOver();
    HexDigitsTo(OVER, 3, 12);
    WrapsOnce(OVER, 3, true, 0);
    WrapZero();
    assert Wrap32(0x1_0000_0041) == 65;
  }

  // ----- the round trip -----

  /** An escaped byte, unescaped. */
  lemma ByteRoundTrip(e: Entities, c: byte, u: seq<byte>)
    requires HasBasics(e)
    ensures Unescaped(e, EscapeByte(c) + u) == [c] + Unescaped(e, u)
  {
    var x := EscapeByte(c);
    var s := x + u;
    if c == 38 || c == 60 || c == 62 {
      var n := |x| - 1;
      assert s[1..n + 1] == x[1..];
      NamedReference(e, s, n);
      assert s[|x|..] == u;
    } else if c == 39 || c == 34 {
      NumericReference(e, s);
      assert s[|x|..] == u;
    } else {
      assert s[1..] == u;
    }
  }

  lemma {:induction false} RoundTrip(e: Entities, s: seq<byte>)
    requires HasBasics(e)
    ensures Unescaped(e, Escaped(s)) == s
  {
    if s != [] {
      ByteRoundTrip(e, s[0], Escaped(s[1..]));
      RoundTrip(e, s[1..]);
    }
  }

  /** The five characters that are escaped. */
  predicate IsSpecial(c: byte) { c == 38 || c == 39 || c == 60 || c == 62 || c == 34 }

  /** An escaped string holds none of them but the ampersand, and that only at
      the start of a reference for one of the five. */
  lemma {:induction false} NoneLeft(s: seq<byte>)
    ensures forall c :: c in Escaped(s) && IsSpecial(c) ==> c == AMP
    ensures forall i :: 0 <= i < |Escaped(s)| && Escaped(s)[i] == AMP ==>
              exists c: byte :: IsSpecial(c) && EscapeByte(c) <= Escaped(s)[i..]
  {
    if s != [] {
      NoneLeft(s[1..]);
      EscapedFirst(s[0], Escaped(s[1..]));
    }
  }

  lemma EscapedFirst(b: byte, u: seq<byte>)
    requires forall c :: c in u && IsSpecial(c) ==> c == AMP
    requires forall i :: 0 <= i < |u| && u[i] == AMP ==> exists c: byte :: IsSpecial(c) && EscapeByte(c) <= u[i..]
    ensures var s := EscapeByte(b) + u;
            && (forall c :: c in s && IsSpecial(c) ==> c == AMP)
            && forall i :: 0 <= i < |s| && s[i] == AMP ==> exists c: byte :: IsSpecial(c) && EscapeByte(c) <= s[i..]
  {
    var x := EscapeByte(b);
    var s := x + u;
    assert forall c :: c in x && IsSpecial(c) ==> c == AMP;
    forall i | 0 <= i < |s| && s[i] == AMP
      ensures exists c: byte :: IsSpecial(c) && EscapeByte(c) <= s[i..]
    {
      if i < |x| {
        assert i == 0 && IsSpecial(b);
        assert s[0..] == s && x <= s;
      } else {
        assert s[i..] == u[i - |x|..] && u[i - |x|] == AMP;
        hide EscapeByte;
        var c: byte :| IsSpecial(c) && EscapeByte(c) <= u[i - |x|..];
      }
    }
  }

  lemma {:induction false} OthersStay(s: seq<byte>)
    requires forall c :: c in s ==> !IsSpecial(c)
    ensures Escaped(s) == s
  {
    if s != [] {
      assert !IsSpecial(s[0]);
      OthersStay(s[1..]);
    }
  }

  /** The converse fails. */
  lemma NotTheConverse(e: Entities)
    requires HasBasics(e)
    ensures exists s :: Escaped(Unescaped(e, s)) != s
  {
    var s := [60];
    assert Unescaped(e, s) == [60] + Unescaped(e, []);
    assert Escaped(s) == [38, 108, 116, 59] + Escaped([]);
    assert Escaped(Unescaped(e, s))[0] == 38;
  }
}
