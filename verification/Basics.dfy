/** Types and byte-string functions shared by the models. */
module Basics {

  type byte = x: nat | x < 256

  const LF: byte := 10
  const CR: byte := 13

  datatype Option<T> = None | Some(value: T)

  /** A line without a final carriage return. */
  function DropCR(line: seq<byte>): seq<byte> {
    if line != [] && line[|line| - 1] == CR then line[..|line| - 1] else line
  }

  function Flatten(parts: seq<seq<byte>>): seq<byte> { if parts == [] then [] else parts[0] + Flatten(parts[1..]) }

  lemma {:induction false} FlattenLast(parts: seq<seq<byte>>, part: seq<byte>)
    ensures Flatten(parts + [part]) == Flatten(parts) + part
  {
    if parts == [] {
      assert [part][1..] == [];
    } else {
      FlattenLast(parts[1..], part);
      assert (parts + [part])[1..] == parts[1..] + [part];
    }
  }

  /** The index of the first c in s, or -1. */
  function IndexByte(s: seq<byte>, c: byte): (i: int)
    ensures -1 <= i < |s|
    ensures i == -1 ==> c !in s
    ensures i >= 0 ==> s[i] == c && c !in s[..i]
  {
    if s == [] then -1
    else if s[0] == c then 0
    else
      var j := IndexByte(s[1..], c);
      if j == -1 then -1
      else
        assert s[..j + 1] == [s[0]] + s[1..][..j];
        j + 1
  }

  lemma NotBefore(s: seq<byte>, c: byte, i: nat)
    requires i <= |s| && c !in s[..i]
    ensures forall k :: 0 <= k < i ==> s[k] != c
  {
    forall k | 0 <= k < i
      ensures s[k] != c
    {
      assert s[..i][k] == s[k];
    }
  }

  lemma IndexByteIs(s: seq<byte>, c: byte, i: nat)
    requires i < |s| && s[i] == c && c !in s[..i]
    ensures IndexByte(s, c) == i
  {
    NotBefore(s, c, i);
    NotBefore(s, c, IndexByte(s, c));
  }
}
