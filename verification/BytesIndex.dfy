/** src/bytes/bytes.go: Index and LastIndex. */
module BytesIndex {
  import opened Basics
  import opened RollingHash

  predicate At(s: seq<byte>, sep: seq<byte>, i: int) {
    0 <= i <= |s| - |sep| && s[i..i + |sep|] == sep
  }

  /** What a naive search from the front finds. */
  ghost predicate IsFirst(s: seq<byte>, sep: seq<byte>, r: int) {
    && (r == -1 || At(s, sep, r))
    && forall i :: At(s, sep, i) ==> 0 <= r <= i
  }

  /** What a naive search from the back finds. */
  ghost predicate IsLast(s: seq<byte>, sep: seq<byte>, r: int) {
    && (r == -1 || At(s, sep, r))
    && forall i :: At(s, sep, i) ==> i <= r
  }

  /** No occurrence before i, or from i on. */
  ghost predicate NoneBelow(s: seq<byte>, sep: seq<byte>, i: int) { forall j :: At(s, sep, j) ==> j >= i }

  ghost predicate NoneFrom(s: seq<byte>, sep: seq<byte>, i: int) { forall j :: At(s, sep, j) ==> j < i }

  /** What depends on the machine: the lengths that its search instruction
      takes, and how many false starts are put up with. */
  datatype Platform = Platform(maxLen: int, maxBruteForce: int, cutover: nat -> int)

  /** bytealg.Index. */
  method BruteForce(s: seq<byte>, sep: seq<byte>) returns (r: int)
    ensures IsFirst(s, sep, r)
  {
    r := 0;
    while r <= |s| - |sep|
      invariant r >= 0 && NoneBelow(s, sep, r)
    {
      if s[r..r + |sep|] == sep {
        return;
      }
      r := r + 1;
    }
    return -1;
  }

  method IndexRabinKarp(s: seq<byte>, sep: seq<byte>) returns (r: int)
    requires 0 < |sep| <= |s|
    ensures IsFirst(s, sep, r)
  {
    hide Wrap, Power, Hash, Roll;
    var n := |sep|;
    var hashSep, pow := HashStr(sep);
    var h := HashOf(s[..n]);
    if h == hashSep && s[..n] == sep {
      return 0;
    }
    SameHash(s, sep, 0, h, hashSep);
    var i := n;
    while i < |s|
      invariant n <= i <= |s| && h == Hash(s[i - n..i]) && NoneBelow(s, sep, i - n + 1)
    {
      var w := s[i - n..i];
      RollHash(w, s[i], pow);
      assert w[1..] + [s[i]] == s[i + 1 - n..i + 1];
      h := Roll(h, pow, s[i - n], s[i]);
      i := i + 1;
      if h == hashSep && s[i - n..i] == sep {
        return i - n;
      }
      SameHash(s, sep, i - n, h, hashSep);
    }
    return -1;
  }

  /** A window with another hash is not an occurrence. */
  lemma SameHash(s: seq<byte>, sep: seq<byte>, i: int, h: word, hashSep: word)
    requires 0 <= i <= |s| - |sep| && h == Hash(s[i..i + |sep|]) && hashSep == Hash(sep)
    ensures h != hashSep ==> !At(s, sep, i)
  {}

  lemma SameHashRev(s: seq<byte>, sep: seq<byte>, i: int, h: word, hashSep: word)
    requires 0 <= i <= |s| - |sep| && h == Hash(Reverse(s[i..i + |sep|])) && hashSep == Hash(Reverse(sep))
    ensures h != hashSep ==> !At(s, sep, i)
  {}

  /** Where the first byte of sep is not, sep is not. */
  lemma SkippedBytes(s: seq<byte>, sep: seq<byte>, i: nat, t: nat, o: nat)
    requires 0 < |sep| <= |s| && t == |s| - |sep| + 1 && i + o <= t && NoneBelow(s, sep, i)
    requires sep[0] !in s[i..t][..o]
    ensures NoneBelow(s, sep, i + o)
  {
    NotBefore(s[i..t], sep[0], o);
    forall k | At(s, sep, k)
      ensures k >= i + o
    {
      assert s[k] == s[k..k + |sep|][0] == sep[0];
      assert forall m :: 0 <= m < o ==> s[i + m] == s[i..t][m];
    }
  }

  /** The next candidate: skips to the first c0, and no occurrence with it. */
  method NextCandidate(s: seq<byte>, sep: seq<byte>, i: nat, t: nat) returns (j: int)
    requires 0 < |sep| <= |s| && t == |s| - |sep| + 1 && i < t && NoneBelow(s, sep, i)
    ensures j == -1 ==> IsFirst(s, sep, -1)
    ensures j != -1 ==> i <= j < t && s[j] == sep[0] && NoneBelow(s, sep, j)
  {
    j := i;
    if s[i] != sep[0] {
      var o := IndexByte(s[i..t], sep[0]);
      SkippedBytes(s, sep, i, t, if o < 0 then t - i else o);
      if o < 0 {
        return -1;
      }
      j := i + o;
    }
  }

  lemma FirstInRest(s: seq<byte>, sep: seq<byte>, i: nat, r: int)
    requires i <= |s| && NoneBelow(s, sep, i) && IsFirst(s[i..], sep, r)
    ensures IsFirst(s, sep, if r >= 0 then r + i else -1)
  {
    forall k: int | k >= i
      ensures At(s, sep, k) <==> At(s[i..], sep, k - i)
    {
      if k <= |s| - |sep| { assert s[i..][k - i..k - i + |sep|] == s[k..k + |sep|]; }
    }
  }

  method Index(p: Platform, s: seq<byte>, sep: seq<byte>) returns (r: int)
    ensures IsFirst(s, sep, r)
  {
    var n := |sep|;
    if n == 0 {
      assert s[0..0] == sep;
      return 0;
    } else if n == 1 {
      r := IndexByte(s, sep[0]);
      SingleByte(s, sep);
      return;
    } else if n == |s| {
      return if s == sep then 0 else -1;
    } else if n > |s| {
      return -1;
    } else if n <= p.maxLen {
      if |s| <= p.maxBruteForce {
        r := BruteForce(s, sep);
      } else {
        r := IndexShort(p, s, sep);
      }
    } else {
      r := IndexLong(s, sep);
    }
  }

  lemma SingleByte(s: seq<byte>, sep: seq<byte>)
    requires |sep| == 1
    ensures forall i :: 0 <= i < |s| ==> (At(s, sep, i) <==> s[i] == sep[0])
  {
    forall i | 0 <= i < |s|
      ensures At(s, sep, i) <==> s[i] == sep[0]
    {
      assert s[i..i + 1] == [s[i]];
    }
  }

  /** Byte skipping, with the machine's search after too many false starts. */
  method IndexShort(p: Platform, s: seq<byte>, sep: seq<byte>) returns (r: int)
    requires 1 < |sep| < |s|
    ensures IsFirst(s, sep, r)
  {
    var n := |sep|;
    var i, fails, t := 0, 0, |s| - n + 1;
    while i < t
      invariant 0 <= i <= t && NoneBelow(s, sep, i)
    {
      i := NextCandidate(s, sep, i, t);
      if i == -1 {
        return -1;
      }
      if s[i + 1] == sep[1] && s[i..i + n] == sep {
        return i;
      }
      SecondByte(s, sep, i);
      fails := fails + 1;
      i := i + 1;
      if fails > p.cutover(i) {
        r := BruteForce(s[i..], sep);
        FirstInRest(s, sep, i, r);
        return if r >= 0 then r + i else -1;
      }
    }
    return -1;
  }

  lemma SecondByte(s: seq<byte>, sep: seq<byte>, i: nat)
    requires 1 < |sep| && i <= |s| - |sep|
    ensures At(s, sep, i) ==> s[i + 1] == sep[1]
  {
    assert s[i..i + |sep|][1] == s[i + 1];
  }

  /** Byte skipping, with Rabin-Karp after too many false starts. */
  method IndexLong(s: seq<byte>, sep: seq<byte>) returns (r: int)
    requires 1 < |sep| < |s|
    ensures IsFirst(s, sep, r)
  {
    var n := |sep|;
    var i, fails, t := 0, 0, |s| - n + 1;
    while i < t
      invariant 0 <= i <= t && NoneBelow(s, sep, i)
    {
      i := NextCandidate(s, sep, i, t);
      if i == -1 {
        return -1;
      }
      if s[i + 1] == sep[1] && s[i..i + n] == sep {
        return i;
      }
      SecondByte(s, sep, i);
      i := i + 1;
      fails := fails + 1;
      if fails >= 4 + i / 16 && i < t {
        r := IndexRabinKarp(s[i..], sep);
        FirstInRest(s, sep, i, r);
        return if r < 0 then -1 else i + r;
      }
    }
    return -1;
  }

  method LastIndexByte(s: seq<byte>, c: byte) returns (r: int)
    ensures -1 <= r < |s| && (r >= 0 ==> s[r] == c)
    ensures forall i :: r < i < |s| ==> s[i] != c
  {
    r := |s| - 1;
    while r >= 0
      invariant -1 <= r < |s| && forall i :: r < i < |s| ==> s[i] != c
    {
      if s[r] == c {
        return;
      }
      r := r - 1;
    }
  }

  lemma LastOfShort(s: seq<byte>, sep: seq<byte>)
    ensures sep == [] ==> IsLast(s, sep, |s|)
    ensures |sep| >= |s| && sep != [] ==> IsLast(s, sep, if s == sep then 0 else -1)
  {
    if |sep| == |s| { assert s[0..|s|] == s; }
    assert s[|s|..|s|] == [];
  }

  lemma LastOfByte(s: seq<byte>, sep: seq<byte>, r: int)
    requires |sep| == 1 && -1 <= r < |s| && (r >= 0 ==> s[r] == sep[0])
    requires forall i :: r < i < |s| ==> s[i] != sep[0]
    ensures IsLast(s, sep, r)
  {
    SingleByte(s, sep);
  }

  method LastIndex(s: seq<byte>, sep: seq<byte>) returns (r: int)
    ensures IsLast(s, sep, r)
  {
    hide IsLast;
    var n := |sep|;
    LastOfShort(s, sep);
    if n == 0 {
      return |s|;
    } else if n == 1 {
      r := LastIndexByte(s, sep[0]);
      LastOfByte(s, sep, r);
    } else if n == |s| {
      return if s == sep then 0 else -1;
    } else if n > |s| {
      return -1;
    } else {
      r := LastIndexRabinKarp(s, sep);
    }
  }

  method LastIndexRabinKarp(s: seq<byte>, sep: seq<byte>) returns (r: int)
    requires 0 < |sep| <= |s|
    ensures IsLast(s, sep, r)
  {
    hide Wrap, Power, Hash, Roll;
    var n := |sep|;
    var hashSep, pow := HashStrRev(sep);
    var last := |s| - n;
    var h := HashOfRev(s[last..]);
    if h == hashSep && s[last..] == sep {
      return last;
    }
    assert s[last..] == s[last..last + n];
    SameHashRev(s, sep, last, h, hashSep);
    var i := last - 1;
    while i >= 0
      invariant -1 <= i < last && h == Hash(Reverse(s[i + 1..i + 1 + n])) && NoneFrom(s, sep, i + 1)
    {
      RollBack(s[i + 1..i + 1 + n], s[i], pow);
      assert [s[i]] + s[i + 1..i + 1 + n][..n - 1] == s[i..i + n];
      h := Roll(h, pow, s[i + n], s[i]);
      if h == hashSep && s[i..i + n] == sep {
        return i;
      }
      SameHashRev(s, sep, i, h, hashSep);
      i := i - 1;
    }
    return -1;
  }

  lemma RollBack(w: seq<byte>, next: byte, pow: word)
    requires |w| > 0 && pow == Wrap(Power(PRIME_RK, |w|))
    ensures Roll(Hash(Reverse(w)), pow, w[|w| - 1], next) == Hash(Reverse([next] + w[..|w| - 1]))
  {
    hide Wrap, Power, Hash, Roll;
    var v, c := w[..|w| - 1], w[|w| - 1];
    assert w == v + [c];
    ReverseLast(v, c);
    ReverseLength(w);
    RollHash(Reverse(w), next, pow);
    assert Reverse(w)[1..] == Reverse(v);
    assert ([next] + v)[1..] == v;
  }
}
