/** src/mime/mediatype.go as it runs: the loops that write and read media types,
    against the functions of MediaType. */
module MediaTypeLoops {
  import opened Basics
  import opened MediaType

  // ----- writing -----

  lemma PercentCons(c: byte, t: str)
    ensures PercentEncoded([c] + t) == PercentByte(c) + PercentEncoded(t) && PercentEncoded([]) == []
  {
    assert ([c] + t)[1..] == t;
  }

  lemma {:induction false} PercentConcat(a: str, b: str)
    ensures PercentEncoded(a + b) == PercentEncoded(a) + PercentEncoded(b)
  {
    hide PercentEncoded, PercentByte;
    if a == [] {
      PercentCons(0, []);
      assert a + b == b;
    } else {
      var c, t := a[0], a[1..];
      PercentConcat(t, b);
      PercentCons(c, t);
      PercentCons(c, t + b);
      assert a == [c] + t && a + b == [c] + (t + b);
    }
  }

  lemma {:induction false} PercentPlain(a: str)
    requires forall i :: 0 <= i < |a| ==> !IsEncoded(a[i])
    ensures PercentEncoded(a) == a
  {
    if a != [] {
      PercentPlain(a[1..]);
      assert a == [a[0]] + a[1..];
    }
  }

  /** Writes runs of plain bytes at once. */
  method WritePercentEncoded(b: str, value: str) returns (b': str)
    ensures b' == b + PercentEncoded(value)
  {
    b' := b;
    var offset := 0;
    assert value[..0] == [];
    for index := 0 to |value|
      invariant 0 <= offset <= index
      invariant b' == b + PercentEncoded(value[..offset])
      invariant forall i :: offset <= i < index ==> !IsEncoded(value[i])
    {
      var ch := value[index];
      if IsEncoded(ch) {
        Flush(b, value, offset, index);
        b' := b' + value[offset..index];
        offset := index + 1;
        OneMoreEscape(value, index);
        b' := b' + [PERCENT, UpperHex(ch / 16), UpperHex(ch % 16)];
      }
    }
    Flush(b, value, offset, |value|);
    assert value[..|value|] == value;
    b' := b' + value[offset..];
  }

  lemma OneMoreEscape(value: str, i: nat)
    requires i < |value| && IsEncoded(value[i])
    ensures PercentEncoded(value[..i + 1]) ==
            PercentEncoded(value[..i]) + [PERCENT, UpperHex(value[i] / 16), UpperHex(value[i] % 16)]
  {
    assert value[..i + 1] == value[..i] + [value[i]];
    PercentConcat(value[..i], [value[i]]);
    PercentCons(value[i], []);
  }

  lemma Flush(b: str, value: str, offset: nat, index: nat)
    requires offset <= index <= |value| && forall i :: offset <= i < index ==> !IsEncoded(value[i])
    ensures b + PercentEncoded(value[..offset]) + value[offset..index] == b + PercentEncoded(value[..index])
  {
    hide PercentEncoded, IsEncoded;
    var done, run := value[..offset], value[offset..index];
    assert value[..index] == done + run;
    PercentConcat(done, run);
    PercentPlain(run);
    assert b + PercentEncoded(done) + run == b + (PercentEncoded(done) + run);
  }

  lemma EscapesCons(c: byte, t: str)
    ensures Escapes([c] + t) == EscapedByte(c) + Escapes(t) && Escapes([]) == []
  {
    assert ([c] + t)[1..] == t;
  }

  lemma {:induction false} EscapesConcat(a: str, b: str)
    ensures Escapes(a + b) == Escapes(a) + Escapes(b)
  {
    hide Escapes, EscapedByte;
    if a == [] {
      EscapesCons(0, []);
      assert a + b == b;
    } else {
      var c, t := a[0], a[1..];
      EscapesConcat(t, b);
      EscapesCons(c, t);
      EscapesCons(c, t + b);
      assert a == [c] + t && a + b == [c] + (t + b);
    }
  }

  /** The escaped value up to index, whose last run, from offset on, starts
      with a byte that has its backslash already. */
  ghost predicate EscapedTo(b: str, value: str, offset: nat, index: nat, b': str) {
    offset <= index <= |value| && b' + value[offset..index] == b + Escapes(value[..index])
  }

  method WriteQuoted(b: str, value: str) returns (b': str)
    ensures b' == b + Quoted(value)
  {
    b' := b + [QUOTE];
    ghost var start := b';
    var offset: nat := 0;
    assert value[..0] == [] && value[0..0] == [];
    for index := 0 to |value|
      invariant EscapedTo(start, value, offset, index, b')
    {
      var character := value[index];
      EscapeStep(start, value, offset, index, b');
      if NeedsBackslash(character) {
        b' := b' + value[offset..index];
        offset := index;
        b' := b' + [BACKSLASH];
      }
    }
    assert value[..|value|] == value && value[offset..|value|] == value[offset..];
    b' := b' + value[offset..];
    b' := b' + [QUOTE];
    assert b' == b + ([QUOTE] + Escapes(value) + [QUOTE]);
  }

  lemma EscapeStep(b: str, value: str, offset: nat, index: nat, b': str)
    requires EscapedTo(b, value, offset, index, b') && index < |value|
    ensures if NeedsBackslash(value[index]) then EscapedTo(b, value, index, index + 1, b' + value[offset..index] + [BACKSLASH])
            else EscapedTo(b, value, offset, index + 1, b')
  {
    hide Escapes, NeedsBackslash;
    var c := value[index];
    OneMoreByte(value, index);
    var e := Escapes(value[..index]);
    if NeedsBackslash(c) {
      assert value[index..index + 1] == [c];
      assert b + e + [BACKSLASH] + [c] == b + (e + [BACKSLASH, c]);
    } else {
      assert value[offset..index + 1] == value[offset..index] + [c];
      assert b' + (value[offset..index] + [c]) == b' + value[offset..index] + [c];
      assert b + e + [c] == b + (e + [c]);
    }
  }

  lemma OneMoreByte(value: str, i: nat)
    requires i < |value|
    ensures Escapes(value[..i + 1]) ==
            Escapes(value[..i]) + (if NeedsBackslash(value[i]) then [BACKSLASH, value[i]] else [value[i]])
  {
    assert value[..i + 1] == value[..i] + [value[i]];
    EscapesConcat(value[..i], [value[i]]);
    EscapesCons(value[i], []);
  }

  lemma ParamsCons(a: str, attrs: seq<str>, param: map<str, str>)
    requires a in param && forall x :: x in attrs ==> x in param
    ensures FormattedParams([a] + attrs, param) ==
            if IsToken(a) && FormattedParams(attrs, param).Some?
            then Some(FormattedParam(a, param[a]) + FormattedParams(attrs, param).value) else None
  {
    assert ([a] + attrs)[1..] == attrs;
  }

  lemma ParamsNil(param: map<str, str>)
    ensures FormattedParams([], param) == Some([])
  {}

  lemma {:induction false} ParamsConcat(attrs: seq<str>, more: seq<str>, param: map<str, str>)
    requires forall x :: x in attrs || x in more ==> x in param
    ensures FormattedParams(attrs + more, param) ==
            if FormattedParams(attrs, param).Some? && FormattedParams(more, param).Some?
            then Some(FormattedParams(attrs, param).value + FormattedParams(more, param).value) else None
    decreases |attrs|
  {
    hide FormattedParams, FormattedParam, IsToken;
    if attrs == [] {
      assert attrs + more == more;
      ParamsNil(param);
      if FormattedParams(more, param).Some? {
        var f := FormattedParams(more, param).value;
        assert [] + f == f;
      }
    } else {
      var a, t := attrs[0], attrs[1..];
      ParamsConcat(t, more, param);
      ParamsCons(a, t, param);
      ParamsCons(a, t + more, param);
      assert attrs == [a] + t && attrs + more == [a] + (t + more);
      if FormattedParams(t, param).Some? && FormattedParams(more, param).Some? {
        var p, x, y := FormattedParam(a, param[a]), FormattedParams(t, param).value, FormattedParams(more, param).value;
        assert p + (x + y) == p + x + y;
      }
    }
  }

  /** One more parameter. */
  lemma ParamsFrom(attrs: seq<str>, param: map<str, str>, i: nat)
    requires i < |attrs| && (forall a :: a in attrs ==> a in param) && FormattedParams(attrs[..i], param).Some?
    ensures !IsToken(attrs[i]) ==> FormattedParams(attrs, param) == None
    ensures IsToken(attrs[i]) ==>
              FormattedParams(attrs[..i + 1], param)
              == Some(FormattedParams(attrs[..i], param).value + FormattedParam(attrs[i], param[attrs[i]]))
  {
    hide FormattedParams, FormattedParam, IsToken;
    var a := attrs[i];
    assert attrs[..i + 1] == attrs[..i] + [a] && attrs == attrs[..i + 1] + attrs[i + 1..] && [a] == [a] + [];
    ParamsNil(param);
    ParamsCons(a, [], param);
    ParamsConcat(attrs[..i], [a], param);
    ParamsConcat(attrs[..i + 1], attrs[i + 1..], param);
    var p := FormattedParam(a, param[a]);
    assert p + [] == p;
  }

  /** attrs are the keys of param, in the order that sort.Strings gives. */
  method FormatMediaType(t: str, attrs: seq<str>, param: map<str, str>) returns (r: Option<str>)
    requires forall a :: a in attrs ==> a in param
    ensures r == Formatted(t, attrs, param)
  {
    hide IsToken, FormattedParam;
    var b: str := [];
    var slash := IndexByte(t, SLASH);
    if slash == -1 {
      if !IsToken(t) {
        return None;
      }
      b := b + ToLower(t);
    } else {
      var major, sub := t[..slash], t[slash + 1..];
      if !IsToken(major) || !IsToken(sub) {
        return None;
      }
      b := b + ToLower(major);
      b := b + [SLASH];
      b := b + ToLower(sub);
      LowerParts(t, slash);
    }
    assert b == ToLower(t);
    assert b + [] == b;
    assert attrs[..0] == [];
    ParamsNil(param);
    ghost var start := b;
    for i := 0 to |attrs|
      invariant IsType(t) && start == ToLower(t) && FormattedParams(attrs[..i], param).Some?
      invariant b == start + FormattedParams(attrs[..i], param).value
    {
      var attribute := attrs[i];
      ParamsFrom(attrs, param, i);
      if !IsToken(attribute) {
        return None;
      }
      b := WriteParam(b, attribute, param[attribute]);
    }
    assert attrs[..|attrs|] == attrs;
    return Some(b);
  }

  method WriteParam(b: str, attribute: str, value: str) returns (b': str)
    ensures b' == b + FormattedParam(attribute, value)
  {
    hide NeedsEncoding, IsToken, ToLower, PercentEncoded, Quoted;
    b' := b + [SEMICOLON];
    b' := b' + [32];
    b' := b' + ToLower(attribute);
    var needEnc := HasUnprintable(value);
    if needEnc {
      b' := b' + [STAR];
    }
    b' := b' + [EQUALS];
    assert b' == b + ([SEMICOLON, 32] + WrittenKey(attribute, value) + [EQUALS]);
    ghost var start := b';
    if needEnc {
      b' := b' + UTF8_PREFIX;
      b' := WritePercentEncoded(b', value);
      assert b' == start + (UTF8_PREFIX + PercentEncoded(value));
    } else if IsToken(value) {
      b' := b' + value;
    } else {
      b' := WriteQuoted(b', value);
    }
    assert b' == start + WrittenValue(value);
    assert start + WrittenValue(value) ==
           b + ([SEMICOLON, 32] + WrittenKey(attribute, value) + [EQUALS] + WrittenValue(value));
  }

  /** needsEncoding. */
  method HasUnprintable(s: str) returns (r: bool)
    ensures r == NeedsEncoding(s)
  {
    for i := 0 to |s|
      invariant forall j :: 0 <= j < i ==> !((s[j] < 0x20 || s[j] > 0x7E) && s[j] != 9)
    {
      if (s[i] < 0x20 || s[i] > 0x7E) && s[i] != 9 {
        return true;
      }
    }
    return false;
  }

  // ----- reading -----

  method ReadValue(v: str) returns (value: str, rest: str)
    ensures (value, rest) == ConsumeValue(v)
  {
    if v == [] {
      return [], [];
    }
    if v[0] != QUOTE {
      return v[..TokenLength(v)], v[TokenLength(v)..];
    }
    var buffer: str := [];
    var i := 1;
    while i < |v|
      invariant 1 <= i <= |v| && ConsumeQuoted(v[1..], []) == ConsumeQuoted(v[i..], buffer)
    {
      var r := v[i];
      assert v[i..][1..] == v[i + 1..];
      if r == QUOTE {
        return buffer, v[i + 1..];
      }
      if r == BACKSLASH && i + 1 < |v| && IsTSpecial(v[i + 1]) {
        assert v[i..][2..] == v[i + 2..];
        buffer := buffer + [v[i + 1]];
        i := i + 2;
        continue;
      }
      if r == CR || r == LF {
        return [], v;
      }
      buffer := buffer + [v[i]];
      i := i + 1;
    }
    return [], v;
  }

  /** How many escapes there are, if they are well formed. */
  function Percents(s: str): Option<nat>
    decreases |s|
  {
    if s == [] then Some(0)
    else if s[0] != PERCENT then Percents(s[1..])
    else if |s| < 3 || !IsHex(s[1]) || !IsHex(s[2]) then None
    else match Percents(s[3..]) case None => None case Some(n) => Some(n + 1)
  }

  lemma {:induction false} DecodedLength(s: str)
    ensures PercentDecoded(s).Some? <==> Percents(s).Some?
    ensures Percents(s).Some? ==> |PercentDecoded(s).value| == |s| - 2 * Percents(s).value
    ensures Percents(s) == Some(0) ==> PercentDecoded(s) == Some(s)
    decreases |s|
  {
    if s != [] {
      if s[0] != PERCENT {
        DecodedLength(s[1..]);
        assert s == [s[0]] + s[1..];
      } else if |s| >= 3 {
        DecodedLength(s[3..]);
      }
    }
  }

  /** percentHexUnescape: counts the escapes, and fills a buffer of exactly the
      size that is left. */
  method PercentHexUnescape(s: str) returns (r: Option<str>)
    ensures r == PercentDecoded(s)
  {
    hide PercentDecoded, Percents, IsHex, UnHex;
    DecodedLength(s);
    var percents := CountPercents(s);
    if percents == None {
      return None;
    }
    if percents.value == 0 {
      return Some(s);
    }
    ghost var whole := PercentDecoded(s).value;
    var t := new byte[|s| - 2 * percents.value];
    var i, j := 0, 0;
    assert s[0..] == s && whole[0..] == whole;
    while i < |s|
      invariant 0 <= i <= |s| && 0 <= j <= t.Length && t.Length == |whole|
      invariant PercentDecoded(s[i..]) == Some(whole[j..])
      invariant forall k :: 0 <= k < j ==> t[k] == whole[k]
    {
      DecodedStep(s, i, whole[j..]);
      assert whole[j..][1..] == whole[j + 1..];
      if s[i] == PERCENT {
        t[j] := UnHex(s[i + 1]) * 16 + UnHex(s[i + 2]);
        j := j + 1;
        i := i + 3;
      } else {
        t[j] := s[i];
        j := j + 1;
        i := i + 1;
      }
    }
    assert s[i..] == [];
    DecodedNil();
    assert t[..] == whole;
    return Some(t[..]);
  }

  lemma DecodedNil()
    ensures PercentDecoded([]) == Some([])
  {}

  lemma DecodedStep(s: str, i: nat, rest: str)
    requires i < |s| && PercentDecoded(s[i..]) == Some(rest)
    ensures rest != []
    ensures if s[i] == PERCENT then
              i + 2 < |s| && PercentDecoded(s[i + 3..]) == Some(rest[1..]) && rest[0] == UnHex(s[i + 1]) * 16 + UnHex(s[i + 2])
            else PercentDecoded(s[i + 1..]) == Some(rest[1..]) && rest[0] == s[i]
  {
    assert s[i..][1..] == s[i + 1..];
    if s[i] == PERCENT { assert s[i..][3..] == s[i + 3..]; }
  }

  method CountPercents(s: str) returns (n: Option<nat>)
    ensures n == Percents(s)
  {
    var percents, i := 0, 0;
    assert s[0..] == s;
    while i < |s|
      invariant 0 <= i <= |s| && 0 <= percents
      invariant Percents(s) == match Percents(s[i..]) { case None => None case Some(k) => Some(k + percents) }
    {
      if s[i] != PERCENT {
        assert s[i..][1..] == s[i + 1..];
        i := i + 1;
        continue;
      }
      percents := percents + 1;
      if i + 2 >= |s| || !IsHex(s[i + 1]) || !IsHex(s[i + 2]) {
        return None;
      }
      assert s[i..][3..] == s[i + 3..];
      i := i + 3;
    }
    return Some(percents);
  }

  /** Puts the pieces of each name together, in whatever order the names come. */
  method Stitch(read: Read) returns (params: map<str, str>)
    ensures params == Merged(read)
  {
    hide Stitched, Merged;
    params := read.params;
    var keys := read.pieces.Keys;
    NothingMerged(read);
    while keys != {}
      invariant keys <= read.pieces.Keys
      invariant params == Merged(read.(pieces := read.pieces - keys))
      decreases |keys|
    {
      var key :| key in keys;
      MergedStep(read, keys, key);
      match Stitched(key, read.pieces[key]) {
        case Some(value) => params := params[key := value];
        case None =>
      }
      keys := keys - {key};
    }
    assert read.pieces - keys == read.pieces;
  }

  lemma NothingMerged(read: Read)
    ensures Merged(read.(pieces := read.pieces - read.pieces.Keys)) == read.params
  {
    hide Stitched;
  }

  /** Putting together the pieces of one more name. */
  lemma MergedStep(read: Read, keys: set<str>, key: str)
    requires keys <= read.pieces.Keys && key in keys
    ensures var before := Merged(read.(pieces := read.pieces - keys));
            Merged(read.(pieces := read.pieces - (keys - {key}))) ==
            match Stitched(key, read.pieces[key])
            case Some(value) => before[key := value]
            case None => before
  {
    hide Stitched;
  }

  method ParseMediaType(fold: Folding, header: str) returns (r: Parsed)
    ensures r == ParsedType(fold, header)
  {
    hide Merged, TrimLeft, TrimRight, ToLower, IsDisposition, ParsedParams, IndexByte;
    var i := IndexByte(header, SEMICOLON);
    if i == -1 {
      i := |header|;
    }
    var mediaType := TrimRight(TrimLeft(fold(header[..i])));
    if !IsDisposition(mediaType) {
      return Failed(NoMediaType, []);
    }
    var read := ReadParams(header[i..]);
    match read {
      case Bad(InvalidParameter) => return Failed(InvalidParameter, mediaType);
      case Bad(e) => return Failed(e, []);
      case Trailing(q) => return Parsed(mediaType, q.params);
      case Params(q) =>
        var params := Stitch(q);
        return Parsed(mediaType, params);
    }
  }

  method ReadParams(start: str) returns (r: Params)
    ensures r == ParsedParams(start, NOTHING_READ)
  {
    hide Added, TrimLeft, ConsumeMediaParam;
    var v, read := start, NOTHING_READ;
    while |v| > 0
      invariant ParsedParams(start, NOTHING_READ) == ParsedParams(v, read)
    {
      ghost var before := v;
      v := TrimLeft(v);
      Shorter(before);
      if |v| == 0 {
        return Params(read);
      }
      var param := ConsumeMediaParam(v);
      if param.0 == [] {
        return if v[0] == SEMICOLON && TrimLeft(v[1..]) == [] then Trailing(read) else Bad(InvalidParameter);
      }
      var added := Added(read, param.0, param.1);
      if added == None {
        return Bad(DuplicateParameter);
      }
      v, read := param.2, added.value;
    }
    NothingLeft();
    return Params(read);
  }

  lemma Shorter(v: str)
    ensures |TrimLeft(v)| <= |v|
  {}

  lemma NothingLeft()
    ensures TrimLeft([]) == []
  {}
}
