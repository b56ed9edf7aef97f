/** src/net/addrselect.go: the order of destination addresses, sections 2.1, 2.2
    and 6 of RFC 6724. */
module AddrSelect {
  import opened Basics

  /** net.IP; [] is nil. */
  type IP = seq<byte>

  const IPV4_LEN := 4
  const IPV6_LEN := 16

  function To4(ip: IP): Option<IP> {
    if |ip| == IPV4_LEN then Some(ip)
    else if |ip| == IPV6_LEN && ip[..10] == [0, 0, 0, 0, 0, 0, 0, 0, 0, 0] && ip[10] == 0xFF && ip[11] == 0xFF then Some(ip[12..])
    else None
  }

  /** An IPv4 address in its short form, any other as it is. */
  function Short(ip: IP): IP { match To4(ip) case Some(ip4) => ip4 case None => ip }

  // ----- bits -----

  function Shr(b: nat, t: nat): nat { if t == 0 then b else Shr(b, t - 1) / 2 }

  /** The k-th bit from the left. */
  function Bit(ip: IP, k: nat): nat
    requires k < 8 * |ip|
  {
    Shr(ip[k / 8], 7 - k % 8) % 2
  }

  predicate SameBits(a: IP, b: IP, n: nat)
    requires n <= 8 * |a| && n <= 8 * |b|
  {
    forall k :: 0 <= k < n ==> Bit(a, k) == Bit(b, k)
  }

  // ----- the policy table -----

  datatype Prefix = Prefix(addr: IP, bits: nat)

  predicate WellFormed(p: Prefix) { |p.addr| == IPV6_LEN && p.bits <= 128 && (To4(p.addr).Some? ==> p.bits >= 96) }

  /** IPNet.Contains: an IPv4 network contains IPv4 addresses only. */
  predicate Contains(p: Prefix, ip: IP)
    requires WellFormed(p)
  {
    var net, n := Short(p.addr), if To4(p.addr).Some? then p.bits - 96 else p.bits;
    |Short(ip)| == |net| && SameBits(Short(ip), net, n)
  }

  datatype Entry = Entry(prefix: Prefix, precedence: nat, tag: nat)

  function Address(start: seq<byte>, end: seq<byte>): IP
    requires |start| + |end| <= IPV6_LEN
  {
    start + seq(IPV6_LEN - |start| - |end|, _ => 0) + end
  }

  const POLICY: seq<Entry> := [
    Entry(Prefix(Address([], [1]), 128), 50, 0),
    Entry(Prefix(Address([], []), 0), 40, 1),
    Entry(Prefix(Address([], [0xFF, 0xFF, 0, 0, 0, 0]), 96), 35, 4),
    Entry(Prefix(Address([0x20, 0x02], []), 16), 30, 2),
    Entry(Prefix(Address([0x20, 0x01], []), 32), 5, 5),
    Entry(Prefix(Address([0xFC], []), 7), 3, 13),
    Entry(Prefix(Address([], []), 96), 1, 3),
    Entry(Prefix(Address([0xFE, 0xC0], []), 10), 1, 11),
    Entry(Prefix(Address([0x3F, 0xFE], []), 16), 1, 12)
  ]

  /** The table, longest prefixes first; sort.Sort leaves the order of equal
      lengths open.  No two entries of the policy are equal, so t is a
      permutation of it. */
  ghost predicate IsTable(t: seq<Entry>) {
    && |t| == |POLICY| && (forall e :: e in t <==> e in POLICY)
    && (forall i :: 0 <= i < |t| ==> WellFormed(t[i].prefix))
    && Sorted(t)
  }

  predicate Sorted(t: seq<Entry>) { forall i, j :: 0 <= i < j < |t| ==> t[i].prefix.bits >= t[j].prefix.bits }

  function Classify(t: seq<Entry>, ip: IP): Option<Entry>
    requires forall i :: 0 <= i < |t| ==> WellFormed(t[i].prefix)
  {
    if t == [] then None
    else if Contains(t[0].prefix, ip) then Some(t[0])
    else Classify(t[1..], ip)
  }

  /** Classify is a longest-prefix match. */
  lemma {:induction false} LongestMatch(t: seq<Entry>, ip: IP)
    requires Sorted(t) && forall i :: 0 <= i < |t| ==> WellFormed(t[i].prefix)
    ensures var r := Classify(t, ip);
            && (r.Some? ==> r.value in t && Contains(r.value.prefix, ip))
            && forall e :: e in t && Contains(e.prefix, ip) ==> r.Some? && e.prefix.bits <= r.value.prefix.bits
  {
    if t != [] && !Contains(t[0].prefix, ip) {
      LongestMatch(t[1..], ip);
    }
  }

  lemma MemberWellFormed(i: nat)
    requires i < |POLICY|
    ensures WellFormed(POLICY[i].prefix) && (To4(POLICY[i].prefix.addr).Some? <==> i == 2)
  {
    var a := POLICY[i].prefix.addr;
    if i == 2 {
      assert a[..10] == [0, 0, 0, 0, 0, 0, 0, 0, 0, 0];
    } else {
      assert a[10] == 0;
    }
  }

  lemma Precedences(i: nat)
    requires i < |POLICY|
    ensures POLICY[i].precedence == 35 <==> i == 2
  {}

  lemma MemberFamily(t: seq<Entry>, e: Entry)
    requires IsTable(t) && e in t
    ensures WellFormed(e.prefix) && (To4(e.prefix.addr).Some? <==> e.precedence == 35)
  {
    hide *;
    var i := PolicyIndex(t, e);
    MemberWellFormed(i);
    Precedences(i);
  }

  lemma TableValid(t: seq<Entry>)
    requires IsTable(t)
    ensures Sorted(t) && forall i :: 0 <= i < |t| ==> WellFormed(t[i].prefix)
  {}

  lemma MappedEntry(t: seq<Entry>, ip: IP)
    requires IsTable(t) && To4(ip).Some?
    ensures exists e :: e in t && WellFormed(e.prefix) && Contains(e.prefix, ip)
  {
    assert POLICY[2] in t;
    MemberWellFormed(2);
    ContainsIPv4(ip);
  }

  /** Only IPv4 addresses have precedence 35, and they have no other. */
  lemma Precedence35(t: seq<Entry>, ip: IP)
    requires IsTable(t)
    ensures (forall i :: 0 <= i < |t| ==> WellFormed(t[i].prefix))
    ensures var r := Classify(t, ip); (r.Some? && r.value.precedence == 35) <==> To4(ip).Some?
  {
    hide *;
    TableValid(t);
    LongestMatch(t, ip);
    var r := Classify(t, ip);
    if r.Some? {
      MemberFamily(t, r.value);
      OneFamily(r.value.prefix, ip);
    } else if To4(ip).Some? {
      MappedEntry(t, ip);
    }
  }

  lemma OneFamily(p: Prefix, ip: IP)
    requires WellFormed(p) && Contains(p, ip)
    ensures To4(p.addr).Some? <==> To4(ip).Some?
  {}

  lemma ContainsIPv4(ip: IP)
    requires To4(ip).Some? && WellFormed(POLICY[2].prefix)
    ensures Contains(POLICY[2].prefix, ip)
  {
    MemberWellFormed(2);
  }

  lemma SameLength(ip: IP, i: nat, j: nat)
    requires i < j < |POLICY| && POLICY[i].prefix.bits == POLICY[j].prefix.bits
    requires WellFormed(POLICY[i].prefix) && WellFormed(POLICY[j].prefix)
    ensures !(Contains(POLICY[i].prefix, ip) && Contains(POLICY[j].prefix, ip))
  {
    MemberWellFormed(i);
    MemberWellFormed(j);
    assert (i == 2 && j == 6) || (i == 3 && j == 8);
    if i == 3 {
      Differs();
      BitsDiffer(POLICY[3].prefix, POLICY[8].prefix, ip, 3);
    }
  }

  lemma BitsDiffer(p: Prefix, q: Prefix, ip: IP, k: nat)
    requires WellFormed(p) && WellFormed(q) && To4(p.addr) == None && To4(q.addr) == None && k < p.bits == q.bits
    requires Bit(p.addr, k) != Bit(q.addr, k)
    ensures !(Contains(p, ip) && Contains(q, ip))
  {
    hide Bit;
  }

  lemma Differs()
    ensures Bit(POLICY[3].prefix.addr, 3) != Bit(POLICY[8].prefix.addr, 3)
  {
    assert POLICY[3].prefix.addr[0] == 0x20 && POLICY[8].prefix.addr[0] == 0x3F;
    assert Shr(0x20, 1) == 0x10 && Shr(0x20, 2) == 8 && Shr(0x20, 3) == 4 && Shr(0x20, 4) == 2;
    assert Shr(0x3F, 1) == 0x1F && Shr(0x3F, 2) == 15 && Shr(0x3F, 3) == 7 && Shr(0x3F, 4) == 3;
  }

  lemma PolicyIndex(t: seq<Entry>, e: Entry) returns (i: nat)
    requires IsTable(t) && e in t
    ensures i < |POLICY| && POLICY[i] == e
  {
    i :| 0 <= i < |POLICY| && POLICY[i] == e;
  }

  lemma SameLengthEntries(t: seq<Entry>, d: Entry, e: Entry, ip: IP)
    requires IsTable(t) && d in t && e in t && WellFormed(d.prefix) && WellFormed(e.prefix)
    requires d.prefix.bits == e.prefix.bits && Contains(d.prefix, ip) && Contains(e.prefix, ip)
    ensures d == e
  {
    hide *;
    var i := PolicyIndex(t, d);
    var j := PolicyIndex(t, e);
    if i < j { SameLength(ip, i, j); }
    if j < i { SameLength(ip, j, i); }
  }

  lemma SameMembers(t: seq<Entry>, u: seq<Entry>, e: Entry)
    requires IsTable(t) && IsTable(u) && e in t
    ensures e in u
  {}

  /** However the sort leaves entries of equal length, Classify is the same. */
  lemma OrderIrrelevant(t: seq<Entry>, u: seq<Entry>, ip: IP)
    requires IsTable(t) && IsTable(u)
    ensures (forall i :: 0 <= i < |t| ==> WellFormed(t[i].prefix)) && forall i :: 0 <= i < |u| ==> WellFormed(u[i].prefix)
    ensures Classify(t, ip) == Classify(u, ip)
  {
    hide *;
    TableValid(t);
    TableValid(u);
    LongestMatch(t, ip);
    LongestMatch(u, ip);
    var d, e := Classify(t, ip), Classify(u, ip);
    if d.Some? { SameMembers(t, u, d.value); }
    if e.Some? { SameMembers(u, t, e.value); }
    if d.Some? && e.Some? { SameLengthEntries(t, d.value, e.value, ip); }
  }

  // ----- scopes and attributes -----

  const SCOPE_LINK_LOCAL := 0x2
  const SCOPE_SITE_LOCAL := 0x5
  const SCOPE_GLOBAL := 0xE

  predicate IsLoopback(ip: IP) {
    match To4(ip)
    case Some(ip4) => ip4[0] == 127
    case None => ip == Address([], [1])
  }

  predicate IsLinkLocalUnicast(ip: IP) {
    match To4(ip)
    case Some(ip4) => ip4[0] == 169 && ip4[1] == 254
    case None => |ip| == IPV6_LEN && ip[0] == 0xFE && ip[1] / 64 == 2
  }

  function ClassifyScope(ip: IP): nat {
    if IsLoopback(ip) || IsLinkLocalUnicast(ip) then SCOPE_LINK_LOCAL
    else if |ip| == IPV6_LEN && To4(ip) == None && ip[0] == 0xFF then ip[1] % 16
    else if |ip| == IPV6_LEN && To4(ip) == None && ip[0] == 0xFE && ip[1] / 64 == 3 then SCOPE_SITE_LOCAL
    else SCOPE_GLOBAL
  }

  datatype Attr = Attr(scope: nat, precedence: nat, tag: nat)

  function AttrOf(t: seq<Entry>, ip: IP): Attr
    requires forall i :: 0 <= i < |t| ==> WellFormed(t[i].prefix)
  {
    if ip == [] then Attr(0, 0, 0)
    else
      match Classify(t, ip)
      case Some(e) => Attr(ClassifyScope(ip), e.precedence, e.tag)
      case None => Attr(ClassifyScope(ip), 0, 0)
  }

  // ----- the common prefix -----

  /** The number of leading bits, from k on and below limit, that agree. */
  function Agreeing(a: IP, b: IP, k: nat, limit: nat): (n: nat)
    requires k <= limit <= 8 * |a| && limit <= 8 * |b|
    ensures k <= n <= limit
    decreases limit - k
  {
    if k < limit && Bit(a, k) == Bit(b, k) then Agreeing(a, b, k + 1, limit) else k
  }

  /** Section 2.2 of RFC 6724, with IPv4 addresses in their short form. */
  function CommonPrefixLen(a: IP, b: IP): nat {
    var x, y := Short(a), Short(b);
    if |x| != |y| then 0 else Agreeing(x, y, 0, if |x| > 8 then 64 else 8 * |x|)
  }

  /** Shifting further keeps what agrees. */
  lemma {:induction false} ShrSame(x: nat, y: nat, s: nat, t: nat)
    requires s <= t && Shr(x, s) == Shr(y, s)
    ensures Shr(x, t) == Shr(y, t)
  {
    if s < t { ShrSame(x, y, s, t - 1); }
  }

  lemma {:induction false} AgreeingTo(a: IP, b: IP, k: nat, n: nat, limit: nat)
    requires k <= n <= limit <= 8 * |a| && limit <= 8 * |b|
    requires forall i :: k <= i < n ==> Bit(a, i) == Bit(b, i)
    ensures Agreeing(a, b, k, limit) == Agreeing(a, b, n, limit)
    decreases n - k
  {
    if k < n { AgreeingTo(a, b, k + 1, n, limit); }
  }

  /** The eight bits of a byte: they agree down to the first shift that makes
      the bytes equal. */
  lemma ByteBits(a: IP, b: IP, i: nat, t: nat)
    requires i < |a| && i < |b| && t <= 8 && Shr(a[i], t) == Shr(b[i], t)
    ensures forall k :: 8 * i <= k < 8 * i + 8 - t ==> Bit(a, k) == Bit(b, k)
  {
    forall k | 8 * i <= k < 8 * i + 8 - t
      ensures Bit(a, k) == Bit(b, k)
    {
      assert k / 8 == i && k % 8 == k - 8 * i;
      ShrSame(a[i], b[i], t, 7 - k % 8);
    }
  }

  lemma DifferentBit(a: IP, b: IP, i: nat, t: nat)
    requires i < |a| && i < |b| && 0 < t <= 8 && Shr(a[i], t) == Shr(b[i], t) && Shr(a[i], t - 1) != Shr(b[i], t - 1)
    ensures Bit(a, 8 * i + 8 - t) != Bit(b, 8 * i + 8 - t)
  {
    var k := 8 * i + 8 - t;
    assert k / 8 == i && 7 - k % 8 == t - 1;
  }

  lemma {:induction false} CutBits(a: IP, b: IP, k: nat)
    requires |a| > 8 && |b| > 8 && k <= 64
    ensures Agreeing(a[..8], b[..8], k, 64) == Agreeing(a, b, k, 64)
    decreases 64 - k
  {
    if k < 64 {
      CutBits(a, b, k + 1);
      assert Bit(a[..8], k) == Bit(a, k) && Bit(b[..8], k) == Bit(b, k);
    }
  }

  lemma ShrByte(b: byte)
    ensures Shr(b, 8) == 0
  {
    assert Shr(b, 1) < 128 && Shr(b, 2) < 64 && Shr(b, 3) < 32 && Shr(b, 4) < 16;
    assert Shr(b, 5) < 8 && Shr(b, 6) < 4 && Shr(b, 7) < 2;
  }

  /** commonPrefixLen as the source runs it: whole bytes, then shifts. */
  method CommonPrefixLenLoop(a: IP, b: IP) returns (cpl: nat)
    ensures cpl == CommonPrefixLen(a, b)
  {
    hide Short, Bit, Shr, To4;
    var x, y := Short(a), Short(b);
    if |x| != |y| {
      return 0;
    }
    if |x| > 8 {
      CutBits(x, y, 0);
      x, y := x[..8], y[..8];
    }
    var i := 0;
    cpl := 0;
    while i < |x|
      invariant 0 <= i <= |x| && cpl == 8 * i && Agreeing(x, y, 0, 8 * |x|) == Agreeing(x, y, 8 * i, 8 * |x|)
    {
      if x[i] == y[i] {
        ByteBits(x, y, i, 0);
        AgreeingTo(x, y, 8 * i, 8 * i + 8, 8 * |x|);
        cpl := cpl + 8;
        i := i + 1;
        continue;
      }
      var bits := LeadingBits(x[i], y[i]);
      ByteBits(x, y, i, 8 - bits);
      AgreeingTo(x, y, 8 * i, 8 * i + bits, 8 * |x|);
      DifferentBit(x, y, i, 8 - bits);
      cpl := cpl + bits;
      return;
    }
  }

  method LeadingBits(x: byte, y: byte) returns (bits: nat)
    requires x != y
    ensures bits < 8 && Shr(x, 8 - bits) == Shr(y, 8 - bits) && Shr(x, 7 - bits) != Shr(y, 7 - bits)
  {
    bits := 8;
    var ab: nat, bb: nat := x, y;
    ShrByte(x);
    ShrByte(y);
    while true
      invariant 0 < bits <= 8 && ab == Shr(x, 8 - bits) && bb == Shr(y, 8 - bits) && ab != bb
      decreases bits
    {
      ab, bb := ab / 2, bb / 2;
      bits := bits - 1;
      if ab == bb {
        return;
      }
    }
  }

  /** The addresses that begin with the first n bits of start. */
  predicate Within(ip: IP, start: IP, n: nat) {
    |ip| == |start| && n <= 8 * |ip| && SameBits(ip, start, n)
  }

  lemma {:induction false} AgreeingMeans(a: IP, b: IP, k: nat, limit: nat)
    requires k <= limit <= 8 * |a| && limit <= 8 * |b|
    ensures var n := Agreeing(a, b, k, limit);
            && (forall i :: k <= i < n ==> Bit(a, i) == Bit(b, i))
            && (n < limit ==> Bit(a, n) != Bit(b, n))
    decreases limit - k
  {
    hide Bit;
    if k < limit && Bit(a, k) == Bit(b, k) { AgreeingMeans(a, b, k + 1, limit); }
  }

  /** What commonPrefixLen counts: the addresses agree in that many bits, and
      then differ, unless that is all of an IPv4 address or the upper half of an
      IPv6 address. */
  lemma CommonPrefixMeans(a: IP, b: IP)
    ensures var x, y, n := Short(a), Short(b), CommonPrefixLen(a, b);
            if |x| != |y| then n == 0
            else
              var limit := if |x| > 8 then 64 else 8 * |x|;
              n <= limit && SameBits(x, y, n) && (n < limit ==> Bit(x, n) != Bit(y, n))
  {
    hide Short, Bit;
    var x, y := Short(a), Short(b);
    if |x| == |y| { AgreeingMeans(x, y, 0, if |x| > 8 then 64 else 8 * |x|); }
  }

  /** The upper bits of a byte are those of the byte shifted down. */
  lemma UpperBits(a: IP, b: IP, i: nat, t: nat)
    requires i < |a| && i < |b| && t <= 8
    ensures (forall k :: 8 * i <= k < 8 * i + 8 - t ==> Bit(a, k) == Bit(b, k)) <==> Shr(a[i], t) == Shr(b[i], t)
  {
    hide Shr, Bit;
    ShrByte(a[i]);
    ShrByte(b[i]);
    if Shr(a[i], t) == Shr(b[i], t) {
      ByteBits(a, b, i, t);
    } else {
      var u := FirstEqual(a[i], b[i], t);
      DifferentBit(a, b, i, u);
    }
  }

  /** The least shift above t that makes the bytes equal. */
  lemma {:induction false} FirstEqual(x: byte, y: byte, t: nat) returns (u: nat)
    requires t < 8 && Shr(x, t) != Shr(y, t)
    ensures t < u <= 8 && Shr(x, u) == Shr(y, u) && Shr(x, u - 1) != Shr(y, u - 1)
    decreases 8 - t
  {
    hide Shr;
    ShrByte(x);
    ShrByte(y);
    if Shr(x, t + 1) == Shr(y, t + 1) { u := t + 1; } else { u := FirstEqual(x, y, t + 1); }
  }

  /** Whole bytes and then some bits. */
  lemma WithinBytes(ip: IP, start: IP, m: nat, t: nat)
    requires |ip| == |start| && m < |ip| && t <= 8
    ensures Within(ip, start, 8 * m + 8 - t) <==> ip[..m] == start[..m] && Shr(ip[m], t) == Shr(start[m], t)
  {
    hide Shr, Bit;
    UpperBits(ip, start, m, t);
    forall i | 0 <= i < m
      ensures (forall k :: 8 * i <= k < 8 * i + 8 ==> Bit(ip, k) == Bit(start, k)) <==> ip[i] == start[i]
    {
      UpperBits(ip, start, i, 0);
      ShrNone(ip[i]);
      ShrNone(start[i]);
    }
    if Within(ip, start, 8 * m + 8 - t) {
      forall i | 0 <= i < m
        ensures ip[i] == start[i]
      {
        assert forall k :: 8 * i <= k < 8 * i + 8 ==> Bit(ip, k) == Bit(start, k);
      }
    }
    if ip[..m] == start[..m] && Shr(ip[m], t) == Shr(start[m], t) {
      forall k | 0 <= k < 8 * m + 8 - t
        ensures Bit(ip, k) == Bit(start, k)
      {
        var i := k / 8;
        assert 8 * i <= k < 8 * i + 8;
        if i < m { assert ip[i] == ip[..m][i] == start[..m][i] == start[i]; }
      }
    }
  }

  lemma ShrNone(b: byte)
    ensures Shr(b, 0) == b
  {}

  lemma ShrSix(b: byte)
    ensures Shr(b, 6) == b / 64
  {
    assert Shr(b, 1) == b / 2 && Shr(b, 2) == b / 4 && Shr(b, 3) == b / 8;
    assert Shr(b, 4) == b / 16 && Shr(b, 5) == b / 32;
  }

  /** The scope of an address: loopback is 127.0.0.0/8 or ::1/128, link-local
      169.254.0.0/16 or fe80::/10, multicast ff00::/8 and site-local fec0::/10. */
  lemma ScopeByPrefix(ip: IP)
    requires |ip| == IPV4_LEN || |ip| == IPV6_LEN
    ensures To4(ip).Some? ==>
              var v := To4(ip).value;
              ClassifyScope(ip) ==
              if Within(v, [127, 0, 0, 0], 8) || Within(v, [169, 254, 0, 0], 16) then SCOPE_LINK_LOCAL else SCOPE_GLOBAL
    ensures To4(ip) == None ==>
              ClassifyScope(ip) ==
              if Within(ip, Address([], [1]), 128) || Within(ip, Address([0xFE, 0x80], []), 10) then SCOPE_LINK_LOCAL
              else if Within(ip, Address([0xFF], []), 8) then ip[1] % 16
              else if Within(ip, Address([0xFE, 0xC0], []), 10) then SCOPE_SITE_LOCAL
              else SCOPE_GLOBAL
  {
    if To4(ip).Some? { ScopeOf4(ip); } else { ScopeOf6(ip); }
  }

  lemma ScopeOf4(ip: IP)
    requires To4(ip).Some?
    ensures var v := To4(ip).value;
            ClassifyScope(ip) ==
            if Within(v, [127, 0, 0, 0], 8) || Within(v, [169, 254, 0, 0], 16) then SCOPE_LINK_LOCAL else SCOPE_GLOBAL
  {
    hide Within, Shr;
    var v := To4(ip).value;
    WithinBytes(v, [127, 0, 0, 0], 0, 0);
    WithinBytes(v, [169, 254, 0, 0], 1, 0);
    ShrNone(v[0]);
    ShrNone(v[1]);
    ShrNone(127);
    ShrNone(254);
  }

  lemma ScopeOf6(ip: IP)
    requires |ip| == IPV6_LEN && To4(ip) == None
    ensures ClassifyScope(ip) ==
            if Within(ip, Address([], [1]), 128) || Within(ip, Address([0xFE, 0x80], []), 10) then SCOPE_LINK_LOCAL
            else if Within(ip, Address([0xFF], []), 8) then ip[1] % 16
            else if Within(ip, Address([0xFE, 0xC0], []), 10) then SCOPE_SITE_LOCAL
            else SCOPE_GLOBAL
  {
    hide Within, Shr, To4;
    var one := Address([], [1]);
    WithinBytes(ip, one, 15, 0);
    ShrNone(ip[15]);
    ShrNone(one[15]);
    assert ip == one <==> ip[..15] == one[..15] && ip[15] == one[15] by {
      assert ip == ip[..15] + [ip[15]] && one == one[..15] + [one[15]];
    }
    WithinBytes(ip, Address([0xFE, 0x80], []), 1, 6);
    WithinBytes(ip, Address([0xFE, 0xC0], []), 1, 6);
    WithinBytes(ip, Address([0xFF], []), 0, 0);
    ShrSix(ip[1]);
    ShrSix(0x80);
    ShrSix(0xC0);
    ShrNone(ip[0]);
    ShrNone(0xFF);
  }

  /** An address has the precedence and the tag of the entry with the longest
      prefix that contains it. */
  lemma AttrOfLongest(t: seq<Entry>, ip: IP, e: Entry)
    requires IsTable(t) && ip != [] && e in t && WellFormed(e.prefix) && Contains(e.prefix, ip)
    requires forall d :: d in t && WellFormed(d.prefix) && Contains(d.prefix, ip) ==> d.prefix.bits <= e.prefix.bits
    ensures forall i :: 0 <= i < |t| ==> WellFormed(t[i].prefix)
    ensures AttrOf(t, ip) == Attr(ClassifyScope(ip), e.precedence, e.tag)
  {
    hide IsTable, Contains, Classify, ClassifyScope, WellFormed;
    TableValid(t);
    LongestMatch(t, ip);
    SameLengthEntries(t, Classify(t, ip).value, e, ip);
  }

  // ----- the order -----

  /** A destination, the source address for it, and the attributes of both. */
  datatype Item = Item(addr: IP, src: IP, addrAttr: Attr, srcAttr: Attr)

  predicate Less(x: Item, y: Item) {
    if x.src == [] && y.src == [] then false
    else if y.src == [] then true
    else if x.src == [] then false
    else if x.addrAttr.scope == x.srcAttr.scope && y.addrAttr.scope != y.srcAttr.scope then true
    else if x.addrAttr.scope != x.srcAttr.scope && y.addrAttr.scope == y.srcAttr.scope then false
    else if x.srcAttr.tag == x.addrAttr.tag && y.srcAttr.tag != y.addrAttr.tag then true
    else if x.srcAttr.tag != x.addrAttr.tag && y.srcAttr.tag == y.addrAttr.tag then false
    else if x.addrAttr.precedence > y.addrAttr.precedence then true
    else if x.addrAttr.precedence < y.addrAttr.precedence then false
    else if x.addrAttr.scope < y.addrAttr.scope then true
    else if x.addrAttr.scope > y.addrAttr.scope then false
    else if To4(x.addr) == None && To4(y.addr) == None then
      CommonPrefixLen(x.src, x.addr) > CommonPrefixLen(y.src, y.addr)
    else false
  }

  /** The attributes belong to the addresses. */
  ghost predicate Aligned(t: seq<Entry>, x: Item)
    requires forall i :: 0 <= i < |t| ==> WellFormed(t[i].prefix)
  {
    x.addrAttr == AttrOf(t, x.addr) && x.srcAttr == AttrOf(t, x.src)
  }

  /** What the rules look at, most important first; smaller is better. */
  datatype Key = Key(unusable: int, scopeDiffers: int, tagDiffers: int, precedence: int, scope: int, prefix: int)

  function Rank(better: bool): int { if better then 0 else 1 }

  function KeyOf(x: Item): Key {
    if x.src == [] then Key(1, 0, 0, 0, 0, 0)
    else
      Key(0, Rank(x.addrAttr.scope == x.srcAttr.scope), Rank(x.addrAttr.tag == x.srcAttr.tag),
          0 - x.addrAttr.precedence as int, x.addrAttr.scope,
          if To4(x.addr) == None then 0 - CommonPrefixLen(x.src, x.addr) as int else 0)
  }

  /** Lexicographically. */
  predicate Before(a: Key, b: Key) {
    || a.unusable < b.unusable
    || (a.unusable == b.unusable &&
        (|| a.scopeDiffers < b.scopeDiffers
         || (a.scopeDiffers == b.scopeDiffers &&
             (|| a.tagDiffers < b.tagDiffers
              || (a.tagDiffers == b.tagDiffers &&
                  (|| a.precedence < b.precedence
                   || (a.precedence == b.precedence &&
                       (|| a.scope < b.scope
                        || (a.scope == b.scope && a.prefix < b.prefix)))))))))
  }

  lemma PrecedenceOfItem(t: seq<Entry>, ip: IP)
    requires IsTable(t)
    ensures forall i :: 0 <= i < |t| ==> WellFormed(t[i].prefix)
    ensures AttrOf(t, ip).precedence == 35 <==> To4(ip).Some?
  {
    hide Classify, IsTable;
    Precedence35(t, ip);
  }

  /** The comparator is a lexicographic order: rule 9 decides only between IPv6
      addresses, but the precedences have separated them from the others. */
  lemma LessIsKeyOrder(t: seq<Entry>, x: Item, y: Item)
    requires IsTable(t)
    ensures forall i :: 0 <= i < |t| ==> WellFormed(t[i].prefix)
    ensures Aligned(t, x) && Aligned(t, y) ==> (Less(x, y) <==> Before(KeyOf(x), KeyOf(y)))
  {
    hide IsTable, AttrOf, To4, CommonPrefixLen;
    PrecedenceOfItem(t, x.addr);
    PrecedenceOfItem(t, y.addr);
  }

  lemma BeforeIsWeakOrder(a: Key, b: Key, c: Key)
    ensures !Before(a, a) && (Before(a, b) ==> !Before(b, a))
    ensures Before(a, b) && Before(b, c) ==> Before(a, c)
    ensures !Before(a, b) && !Before(b, a) ==> a == b
  {}

  /** What a stable sort needs: a strict order in which being unordered is
      transitive. */
  lemma StrictWeakOrder(t: seq<Entry>, x: Item, y: Item, z: Item)
    requires IsTable(t)
    ensures forall i :: 0 <= i < |t| ==> WellFormed(t[i].prefix)
    ensures Aligned(t, x) && Aligned(t, y) && Aligned(t, z) ==>
              && !Less(x, x) && (Less(x, y) ==> !Less(y, x))
              && (Less(x, y) && Less(y, z) ==> Less(x, z))
              && (!Less(x, y) && !Less(y, x) && !Less(y, z) && !Less(z, y) ==> !Less(x, z) && !Less(z, x))
  {
    hide IsTable, Aligned, Less, KeyOf, Before;
    TableValid(t);
    LessIsKeyOrder(t, x, x);
    LessIsKeyOrder(t, x, y);
    LessIsKeyOrder(t, y, x);
    LessIsKeyOrder(t, y, z);
    LessIsKeyOrder(t, z, y);
    LessIsKeyOrder(t, x, z);
    LessIsKeyOrder(t, z, x);
    BeforeIsWeakOrder(KeyOf(x), KeyOf(y), KeyOf(z));
    BeforeIsWeakOrder(KeyOf(y), KeyOf(z), KeyOf(x));
    BeforeIsWeakOrder(KeyOf(z), KeyOf(x), KeyOf(y));
  }

  lemma CommonOfSix()
    ensures var six, four := Address([0x20], [1]), [10, 0, 0, 1];
            To4(six) == None && CommonPrefixLen(six, six) > 0 && CommonPrefixLen(four, six) == 0
  {
    var six, four := Address([0x20], [1]), [10, 0, 0, 1];
    assert six[10] == 0;
    hide Address;
    assert Agreeing(six, six, 0, 64) == Agreeing(six, six, 1, 64);
  }

  /** It does rest on the table: with one precedence for all, being unordered is
      not transitive. */
  lemma NotWithoutTheTable()
    ensures exists x: Item, y: Item, z: Item ::
              && x.addrAttr == y.addrAttr == z.addrAttr == x.srcAttr == y.srcAttr == z.srcAttr
              && !Less(x, y) && !Less(y, x) && !Less(y, z) && !Less(z, y) && Less(x, z)
  {
    var a, six, four := Attr(SCOPE_GLOBAL, 40, 1), Address([0x20], [1]), [10, 0, 0, 1];
    var x, y, z := Item(six, six, a, a), Item(four, four, a, a), Item(six, four, a, a);
    CommonOfSix();
    hide CommonPrefixLen;
    assert Less(x, z);
  }

  /** The four slices that the sort permutes together. */
  class ByRFC6724 {
    const addrs: array<IP>
    const addrAttr: array<Attr>
    const srcs: array<IP>
    const srcAttr: array<Attr>

    ghost predicate Valid()
      reads this
    {
      && addrs.Length == srcs.Length == addrAttr.Length == srcAttr.Length
      && addrs != srcs && addrAttr != srcAttr
    }

    ghost function ItemAt(i: nat): Item
      requires Valid() && i < addrs.Length
      reads this, addrs, addrAttr, srcs, srcAttr
    {
      Item(addrs[i], srcs[i], addrAttr[i], srcAttr[i])
    }

    /** sortByRFC6724withSrcs, up to the sort. */
    constructor (t: seq<Entry>, addrs: array<IP>, srcs: array<IP>)
      requires IsTable(t) && addrs.Length == srcs.Length && addrs != srcs
      ensures Valid() && this.addrs == addrs && this.srcs == srcs && fresh(addrAttr) && fresh(srcAttr)
      ensures forall i :: 0 <= i < addrs.Length ==> Aligned(t, ItemAt(i))
    {
      hide AttrOf, IsTable;
      TableValid(t);
      this.addrs, this.srcs := addrs, srcs;
      addrAttr := new Attr[addrs.Length];
      srcAttr := new Attr[srcs.Length];
      new;
      for i := 0 to addrs.Length
        invariant addrAttr != srcAttr
        invariant forall j :: 0 <= j < i ==> addrAttr[j] == AttrOf(t, addrs[j]) && srcAttr[j] == AttrOf(t, srcs[j])
      {
        addrAttr[i] := AttrOf(t, addrs[i]);
        srcAttr[i] := AttrOf(t, srcs[i]);
      }
    }

    /** Addresses, sources and attributes stay together. */
    method Swap(i: nat, j: nat)
      requires Valid() && i < addrs.Length && j < addrs.Length
      modifies addrs, addrAttr, srcs, srcAttr
      ensures ItemAt(i) == old(ItemAt(j)) && ItemAt(j) == old(ItemAt(i))
      ensures forall k :: 0 <= k < addrs.Length && k != i && k != j ==> ItemAt(k) == old(ItemAt(k))
    {
      addrs[i], addrs[j] := addrs[j], addrs[i];
      srcs[i], srcs[j] := srcs[j], srcs[i];
      addrAttr[i], addrAttr[j] := addrAttr[j], addrAttr[i];
      srcAttr[i], srcAttr[j] := srcAttr[j], srcAttr[i];
    }
  }
}
