/** Any io.Reader: a stream of bytes cut into segments, each ended by an error,
    and handed out in pieces of any size. */
module ByteSource {
  import opened Basics

  datatype SourceError = EOF | Failure(id: nat)

  datatype Segment = Segment(bytes: seq<byte>, err: SourceError)

  /** So many empty reads in a row make a pause. */
  const PAUSE := 100

  class Source {
    const segments: nat -> Segment
    var current: nat
    var at: nat
    /** The bytes before the next error, and all the bytes handed out so far;
        how many reads in a row have delivered nothing, and how often that has
        come to a pause. */
    ghost var rest: seq<byte>
    ghost var taken: seq<byte>
    ghost var idle: nat
    ghost var pauses: nat

    ghost predicate Valid()
      reads this
    {
      at <= |segments(current).bytes| && rest == segments(current).bytes[at..]
    }

    ghost function NextError(): SourceError
      reads this
    {
      segments(current).err
    }

    constructor (segments: nat -> Segment)
      ensures Valid() && this.segments == segments && current == 0 && rest == segments(0).bytes && taken == []
      ensures idle == pauses == 0
    {
      this.segments := segments;
      current, at, rest, taken, idle, pauses := 0, 0, segments(0).bytes, [], 0, 0;
    }

    /** Reads into p[from..].  How many bytes arrive, possibly none, is not
        known in advance; the error may come with the last bytes or after
        them, and the rest of p may be used as scratch space. */
    method Read(p: array<byte>, from: nat) returns (n: nat, err: Option<SourceError>)
      requires Valid() && from <= p.Length
      modifies this, p
      ensures Valid() && n <= p.Length - from && n <= |old(rest)|
      ensures forall i :: 0 <= i < from ==> p[i] == old(p[i])
      ensures forall i :: 0 <= i < n ==> p[from + i] == old(rest)[i]
      ensures taken == old(taken) + old(rest)[..n]
      ensures err == None ==> current == old(current) && rest == old(rest)[n..]
      ensures err.Some? ==> n == |old(rest)| && err.value == old(NextError()) && current == old(current) + 1
      ensures idle == if n == 0 && err == None then old(idle) + 1 else 0
      ensures pauses == old(pauses) + if idle > 0 && idle % PAUSE == 0 then 1 else 0
    {
      var left := |segments(current).bytes| - at;
      n :| 0 <= n <= p.Length - from && n <= left;
      forall i | 0 <= i < n {
        p[from + i] := segments(current).bytes[at + i];
      }
      at := at + n;
      err := None;
      taken, rest := taken + rest[..n], rest[n..];
      if n == left {
        if * {
          err := Some(segments(current).err);
          current, at := current + 1, 0;
          rest := segments(current).bytes;
        }
      }
      idle := if n == 0 && err == None then idle + 1 else 0;
      pauses := if idle > 0 && idle % PAUSE == 0 then pauses + 1 else pauses;
    }
  }
}
