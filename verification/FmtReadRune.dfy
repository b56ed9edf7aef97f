/** src/fmt/scan.go: readRune, which decodes UTF-8 from a reader of bytes. */
module FmtReadRune {
  import opened Basics
  import opened Utf8

  datatype Error = EOF | Failure(id: nat) | NoRune

  /** The reader as io.ReadFull shows it: its bytes, one at a time, and then its
      error, again and again. */
  class ByteReader {
    var rest: seq<byte>
    const end: Error

    constructor (bytes: seq<byte>, end: Error)
      ensures rest == bytes && this.end == end
    {
      rest, this.end := bytes, end;
    }

    method ReadFull(p: array<byte>) returns (err: Option<Error>)
      requires p.Length > 0
      modifies this, p
      ensures if old(rest) == [] then err == Some(end) && rest == [] && p[..] == old(p[..])
              else err == None && p[0] == old(rest)[0] && rest == old(rest)[1..] && p[1..] == old(p[1..])
    {
      if rest == [] {
        err := Some(end);
      } else {
        p[0] := rest[0];
        rest := rest[1..];
        err := None;
      }
    }
  }

  /** ^r on a rune. */
  function Flip(r: int): int { -r - 1 }

  class RuneReader {
    const reader: ByteReader
    var pending: nat
    const pendBuf: array<byte>
    var peekRune: int
    /** The bytes left over, and the last rune given out. */
    ghost var left: seq<byte>
    ghost var last: Option<int>

    ghost predicate Valid()
      reads this, pendBuf
    {
      && pendBuf.Length == 4 && pending <= 3 && left == pendBuf[..pending] && Tail(left)
      // the rune in peekRune, flipped or not
      && (last.Some? ==> IsScalar(last.value) && (peekRune == last.value || peekRune == Flip(last.value)))
      && (last == None ==> peekRune == -1 || peekRune == 0)
      && (peekRune >= 0 ==> IsScalar(peekRune)) && (peekRune < 0 ==> IsScalar(Flip(peekRune)))
    }

    /** The bytes that are not decoded yet. */
    ghost function Bytes(): seq<byte>
      reads this, reader
    {
      left + reader.rest
    }

    /** The runes to come. */
    ghost function Runes(): seq<int>
      reads this, reader
    {
      (if peekRune >= 0 then [peekRune] else []) + DecodeAll(Bytes())
    }

    constructor (reader: ByteReader)
      ensures Valid() && this.reader == reader && Runes() == DecodeAll(reader.rest) && last == None && peekRune < 0
      ensures fresh(pendBuf)
    {
      this.reader := reader;
      pendBuf := new byte[4];
      pending, peekRune, left, last := 0, -1, [], None;
      new;
      assert [] + reader.rest == reader.rest;
      assert [] + DecodeAll(reader.rest) == DecodeAll(reader.rest);
    }

    /** The next byte, left over or from the reader. */
    method ReadByte() returns (b: byte, err: Option<Error>)
      requires Valid()
      modifies this`pending, this`left, pendBuf, reader
      ensures Valid() && |left| <= old(|left|)
      ensures if old(Bytes()) == [] then err == Some(reader.end) && Bytes() == []
              else err == None && b == old(Bytes())[0] && Bytes() == old(Bytes())[1..]
      ensures old(left) != [] ==> left == old(left)[1..]
    {
      if pending > 0 {
        b, err := pendBuf[0], None;
        forall i | 0 <= i < 3 {
          pendBuf[i] := pendBuf[i + 1];
        }
        pending := pending - 1;
        left := left[1..];
        assert left + reader.rest == old(Bytes())[1..];
        return;
      }
      err := reader.ReadFull(pendBuf);
      b := if err.Some? then 0 else pendBuf[0];
    }

    /** The rest of an encoding that starts with b; buf, at most four bytes
        long, is what has been read of it. */
    method Gather(b: byte) returns (buf: seq<byte>, err: Option<Error>)
      requires Valid() && (FullRune([b]) || left == [])
      modifies this`pending, this`left, pendBuf, reader
      ensures Valid() && 1 <= |buf| <= 4 && [b] + old(Bytes()) == buf + Bytes()
      ensures |buf| > 1 ==> left == []
      ensures forall k :: 0 < k < |buf| - 1 ==> Continues(buf[k])
      ensures err == None ==> FullRune(buf) || Bytes() == []
      ensures err.Some? ==> err == Some(reader.end) && reader.end != EOF && !FullRune(buf) && Bytes() == []
      ensures !FullRune(buf) ==> reader.end == EOF || err.Some?
    {
      hide FullRune, DecodeRune, DecodeAll, Continues;
      buf, err := [b], None;
      while !FullRune(buf)
        invariant Valid() && 1 <= |buf| <= 4 && [b] + old(Bytes()) == buf + Bytes()
        invariant err == None && (FullRune(buf) || left == []) && (|buf| > 1 ==> left == [])
        invariant forall k :: 0 < k < |buf| - 1 ==> Continues(buf[k])
        decreases 4 - |buf|
      {
        Incomplete(buf);
        ghost var bytes := Bytes();
        var c;
        c, err := ReadByte();
        if err.Some? {
          if err.value == EOF {
            err := None;
          }
          return;
        }
        assert buf + bytes == buf + [c] + Bytes();
        buf := buf + [c];
      }
    }

    /** Saves bytes that are not part of the rune. */
    method Save(buf: seq<byte>, size: nat)
      requires Valid() && 0 < size <= |buf| <= 4 && (size < |buf| ==> left == [])
      requires forall k :: 0 < k < |buf| - 1 ==> Continues(buf[k])
      modifies this`pending, this`left, pendBuf
      ensures Valid() && Bytes() == buf[size..] + old(Bytes())
    {
      if size < |buf| {
        forall i | 0 <= i < |buf| - size {
          pendBuf[pending + i] := buf[size + i];
        }
        pending := pending + (|buf| - size);
        left := buf[size..];
        assert left == pendBuf[..pending];
        assert [] + reader.rest == reader.rest;
      } else {
        assert buf[size..] + Bytes() == Bytes();
      }
    }

    /** Decodes the rune that starts with b. */
    method Decode(b: byte) returns (rr: int, size: nat, err: Option<Error>)
      requires Valid() && (FullRune([b]) || left == [])
      modifies this`pending, this`left, pendBuf, reader
      ensures Valid()
      ensures err == None ==>
                (rr, size) == DecodeRune([b] + old(Bytes())) && Bytes() == ([b] + old(Bytes()))[size..] && IsScalar(rr)
      ensures err.Some? <==> reader.end != EOF && !FullRune([b] + old(Bytes()))
      ensures err.Some? ==> err == Some(reader.end) && Bytes() == []
    {
      hide DecodeRune, DecodeAll, FullRune, Tail, Continues, IsScalar;
      rr, size := 0, 0;
      if b < RUNE_SELF {
        Ascii([b] + Bytes());
        return b, 1, None;
      }
      var buf;
      buf, err := Gather(b);
      ghost var more := Bytes();
      if err.Some? {
        assert buf + more == buf;
        return;
      }
      Decoded(buf + more, buf, more);
      var decoded := DecodeRune(buf);
      rr, size := decoded.0, decoded.1;
      Save(buf, size);
    }

    /** Gives out the next rune, and loses nothing; but a reader that fails in
        the middle of an encoding takes the bytes before the failure with it. */
    method ReadRune() returns (rr: int, size: nat, err: Option<Error>)
      requires Valid()
      modifies this, pendBuf, reader
      ensures Valid()
      ensures err == None ==>
                && old(Runes()) != [] && rr == old(Runes())[0] && Runes() == old(Runes())[1..]
                && last == Some(rr) && peekRune == Flip(rr)
      ensures err == None && old(peekRune) < 0 ==> size == DecodeRune(old(Bytes())).1 && Bytes() == old(Bytes())[size..]
      ensures err == None && old(peekRune) >= 0 ==> size == |EncodeRune(rr)| && Bytes() == old(Bytes())
      ensures err.Some? <==>
                old(peekRune) < 0 && (old(Bytes()) == [] || (reader.end != EOF && !FullRune(old(Bytes()))))
      ensures err.Some? ==> err == Some(reader.end) && Bytes() == [] && last == old(last) && peekRune == old(peekRune)
    {
      rr, size := 0, 0;
      if peekRune >= 0 {
        rr := peekRune;
        peekRune := Flip(peekRune);
        last := Some(rr);
        return rr, |EncodeRune(rr)|, None;
      }
      ghost var bytes := Bytes();
      var b;
      b, err := ReadByte();
      if err.Some? {
        return;
      }
      assert bytes == [b] + Bytes();
      assert Continues(b) ==> FullRune([b]);
      rr, size, err := Decode(b);
      if err.Some? {
        return;
      }
      peekRune, last := Flip(rr), Some(rr);
    }

    /** Takes the last rune back.  Before any rune has been read it makes up
        a U+0000. */
    method UnreadRune() returns (err: Option<Error>)
      requires Valid()
      modifies this`peekRune
      ensures Valid() && Bytes() == old(Bytes())
      ensures if old(peekRune) >= 0 then err == Some(NoRune) && peekRune == old(peekRune)
              else err == None && Runes() == [if last.Some? then last.value else 0] + old(Runes())
    {
      if peekRune >= 0 {
        return Some(NoRune);
      }
      peekRune := Flip(peekRune);
      return None;
    }
  }

  /** What is decoded from the first bytes, if more cannot change it. */
  lemma Decoded(bytes: seq<byte>, p: seq<byte>, more: seq<byte>)
    requires bytes == p + more && p != [] && (FullRune(p) || more == [])
    ensures DecodeRune(bytes) == DecodeRune(p) && IsScalar(DecodeRune(p).0)
    ensures var (r, n) := DecodeRune(p); bytes[n..] == p[n..] + more && DecodeAll(bytes) == [r] + DecodeAll(p[n..] + more)
    ensures FullRune(p) ==> FullRune(bytes)
  {
    if FullRune(p) { FullRuneStable(p, more); }
    EncodeDecoded(p);
    assert bytes[DecodeRune(p).1..] == p[DecodeRune(p).1..] + more;
  }

  lemma Ascii(bytes: seq<byte>)
    requires bytes != [] && bytes[0] < RUNE_SELF
    ensures FullRune(bytes) && DecodeRune(bytes) == (bytes[0] as int, 1) && IsScalar(bytes[0])
  {}

  /** Left-over bytes: all but the last are continuation bytes. */
  predicate Tail(left: seq<byte>) { forall i :: 0 <= i < |left| - 1 ==> Continues(left[i]) }

  /** A client that reads to the end of a stream that ends with EOF gets the
      runes of the whole stream, decoded at once. */
  method ReadToEnd(r: RuneReader) returns (runes: seq<int>)
    requires r.Valid() && r.reader.end == EOF
    modifies r, r.pendBuf, r.reader
    ensures r.Valid() && runes == old(r.Runes()) && r.Bytes() == []
  {
    hide DecodeRune, DecodeAll, FullRune, EncodeRune, Tail, IsScalar, Flip;
    runes := [];
    ghost var all, left := r.Runes(), r.Runes();
    assert all == [] + left;
    while true
      invariant r.Valid() && left == r.Runes() && all == runes + left
      decreases |left|
    {
      var rr, size, err := r.ReadRune();
      if err.Some? {
        NothingLeft();
        assert r.Runes() == [];
        return;
      }
      assert runes + left == runes + [rr] + left[1..];
      left := left[1..];
      runes := runes + [rr];
    }
  }

  lemma NothingLeft()
    ensures DecodeAll([]) == []
  {}
}
