/** The agent reads a host's IPv6 addresses as single-host (/128) addresses and gives each the prefix
    length of the first router-advertised route that contains it, in place.

    An IPv6 address is its 128-bit value. What the standard library parses and prints is a datatype:
    text without a colon, text that does not parse, and parsed addresses with their spelling.
 */
module V6Prefixes {
  import opened BigEndian
  import opened Common

  const IPV6_LEN := 16
  const RTPROT_RA := 9

  /** `bytes` is the length of the address in memory, `ones` the prefix length of the mask. */
  datatype Net = Net(bytes: nat, ip: nat, ones: nat)

  datatype Route = Route(dst: Option<Net>, protocol: nat)

  datatype Spelling = Canonical | Other(text: string)

  /** `Dotted` is an IPv4-mapped IPv6 address as it is printed: four decimal numbers and the part of
      the prefix length that falls into the last 32 bits. */
  datatype Address =
    | NoColon(text: string)
    | Unparsable(text: string)
    | V6(ip: nat, ones: nat, spelling: Spelling)
    | Dotted(low: nat, prefix: nat)

  predicate V4Mapped(ip: nat) {
    ip / Pow2(32) == 0xffff
  }

  /** The leading bits of an address that a prefix length selects. */
  function Top(ip: nat, ones: nat): nat
    requires ones <= 128
  {
    hide Pow2;
    ip / Pow2(128 - ones)
  }

  function LowOnes(ones: nat): nat {
    if ones <= 96 then 0 else ones - 96
  }

  /** An IPv4-mapped address and network are compared on their last four bytes only, and never with an
      address or network that is not mapped. */
  predicate Contains(net: Net, ip: nat)
    requires net.ones <= 128
  {
    if V4Mapped(ip) != V4Mapped(net.ip) then false
    else if V4Mapped(ip) then
      ip % Pow2(32) / Pow2(32 - LowOnes(net.ones)) == net.ip % Pow2(32) / Pow2(32 - LowOnes(net.ones))
    else Top(ip, net.ones) == Top(net.ip, net.ones)
  }

  function WithPrefix(ip: nat, ones: nat): Address {
    if V4Mapped(ip) then Dotted(ip % Pow2(32), LowOnes(ones)) else V6(ip, ones, Canonical)
  }

  predicate Usable(r: Route) {
    && r.dst.Some?                   // not a default route
    && r.dst.value.bytes == IPV6_LEN // an IPv6 route
    && r.protocol == RTPROT_RA       // an advertised route
  }

  ghost predicate WellFormed(routes: seq<Route>) {
    forall k | 0 <= k < |routes| && routes[k].dst.Some? :: routes[k].dst.value.ones <= 128
  }

  // ----- specification -----

  predicate Covers(r: Route, ip: nat)
    requires r.dst.Some? ==> r.dst.value.ones <= 128
  {
    Usable(r) && Contains(r.dst.value, ip)
  }

  ghost function FirstCover(routes: seq<Route>, ip: nat): Option<Net>
    requires WellFormed(routes)
  {
    if routes == [] then None
    else if Covers(routes[0], ip) then routes[0].dst
    else FirstCover(routes[1..], ip)
  }

  ghost function Rewritten(routes: seq<Route>, a: Address): Address
    requires WellFormed(routes)
  {
    if !a.V6? then a
    else match FirstCover(routes, a.ip)
         case None => a
         case Some(net) => WithPrefix(a.ip, net.ones)
  }

  ghost function UsableOf(routes: seq<Route>): seq<Route> {
    if routes == [] then []
    else UsableOf(routes[..|routes| - 1]) + if Usable(routes[|routes| - 1]) then [routes[|routes| - 1]] else []
  }

  // ----- the code -----

  method GetUsableRoutes(routes: seq<Route>) returns (usable: seq<Route>)
    ensures usable == UsableOf(routes)
  {
    usable := [];
    for i := 0 to |routes|
      invariant usable == UsableOf(routes[..i])
    {
      assert routes[..i + 1][..i] == routes[..i];
      if !Usable(routes[i]) {
        continue;
      }
      usable := usable + [routes[i]];
    }
    assert routes[..|routes|] == routes;
  }

  method SetV6Prefixes(linkFound: bool, routes: Option<seq<Route>>, addresses: array<Address>) returns (ok: bool)
    requires routes.Some? ==> WellFormed(routes.value)
    modifies addresses
    ensures ok <==> addresses.Length == 0 || (linkFound && routes.Some?)
    ensures !ok ==> addresses[..] == old(addresses[..])
    ensures ok && addresses.Length > 0 ==>
              forall i | 0 <= i < addresses.Length :: addresses[i] == Rewritten(routes.value, old(addresses[i]))
  {
    if addresses.Length == 0 {
      return true;
    }
    if !linkFound || routes.None? {
      return false;
    }
    var usable := GetUsableRoutes(routes.value);
    UsableWellFormed(routes.value);
    for i := 0 to addresses.Length
      invariant forall j | 0 <= j < i :: addresses[j] == Rewritten(routes.value, old(addresses[j]))
      invariant forall j | i <= j < addresses.Length :: addresses[j] == old(addresses[j])
    {
      if !addresses[i].V6? {
        continue;
      }
      FilterKeepsFirst(routes.value, addresses[i].ip);
      var found := Search(usable, addresses[i].ip);
      if found.Some? {
        addresses[i] := WithPrefix(addresses[i].ip, found.value.ones);
      }
    }
    return true;
  }

  method Search(usable: seq<Route>, ip: nat) returns (found: Option<Net>)
    requires WellFormed(usable) && forall k | 0 <= k < |usable| :: Usable(usable[k])
    ensures found == FirstCover(usable, ip)
  {
    for k := 0 to |usable|
      invariant FirstCover(usable, ip) == FirstCover(usable[k..], ip)
    {
      assert usable[k..][1..] == usable[k + 1..];
      if Contains(usable[k].dst.value, ip) {
        return usable[k].dst;
      }
    }
    return None;
  }

  lemma {:induction false} UsableWellFormed(routes: seq<Route>)
    requires WellFormed(routes)
    ensures WellFormed(UsableOf(routes))
    ensures forall k | 0 <= k < |UsableOf(routes)| :: Usable(UsableOf(routes)[k])
  {
    if routes != [] { UsableWellFormed(routes[..|routes| - 1]); }
  }

  lemma {:induction false} FirstCoverSplit(a: seq<Route>, b: seq<Route>, ip: nat)
    requires WellFormed(a) && WellFormed(b)
    ensures WellFormed(a + b)
    ensures FirstCover(a + b, ip) == if FirstCover(a, ip).Some? then FirstCover(a, ip) else FirstCover(b, ip)
  {
    if a == [] {
      assert a + b == b;
    } else {
      assert (a + b)[1..] == a[1..] + b;
      FirstCoverSplit(a[1..], b, ip);
    }
  }

  /** Filtering the routes first does not change which one is found. */
  lemma {:induction false} FilterKeepsFirst(routes: seq<Route>, ip: nat)
    requires WellFormed(routes)
    ensures WellFormed(UsableOf(routes)) && FirstCover(UsableOf(routes), ip) == FirstCover(routes, ip)
  {
    UsableWellFormed(routes);
    if routes != [] {
      var n := |routes| - 1;
      FilterKeepsFirst(routes[..n], ip);
      var last := if Usable(routes[n]) then [routes[n]] else [];
      FirstCoverSplit(UsableOf(routes[..n]), last, ip);
      FirstCoverSplit(routes[..n], [routes[n]], ip);
      assert routes == routes[..n] + [routes[n]];
      assert FirstCover(last, ip) == FirstCover([routes[n]], ip);
    }
  }

  // ----- what is proved -----

  /** A route with a destination, an IPv6 one, advertised by a router, whose network holds the address:
      both or neither are IPv4-mapped, and their leading bits agree. */
  ghost predicate Applies(r: Route, ip: nat)
    requires r.dst.Some? ==> r.dst.value.ones <= 128
  {
    && r.dst.Some? && r.dst.value.bytes == 16 && r.protocol == 9
    && V4Mapped(ip) == V4Mapped(r.dst.value.ip) && SameTop(ip, r.dst.value.ip, r.dst.value.ones)
  }

  /** Two addresses lie in one block of addresses with this prefix length. */
  ghost predicate SameTop(ip: nat, ip': nat, ones: nat)
    requires ones <= 128
  {
    var size := Pow2(128 - ones);
    exists block: nat :: InBlock(ip, block, size) && InBlock(ip', block, size)
  }

  /** Block number `block` of a partition into blocks of this size. */
  ghost predicate InBlock(ip: nat, block: nat, size: nat) {
    block * size <= ip < (block + 1) * size
  }

  lemma BlockIs(ip: nat, size: nat, block: nat)
    requires size > 0
    ensures InBlock(ip, block, size) <==> ip / size == block
  {
    var q, r := ip / size, ip % size;
    assert ip == size * q + r;
    if InBlock(ip, block, size) {
      DivideIs(ip, size, block, ip - size * block);
    }
    assert InBlock(ip, q, size);
  }

  lemma SameTopIff(ip: nat, ip': nat, ones: nat)
    requires ones <= 128
    ensures SameTop(ip, ip', ones) <==> Top(ip, ones) == Top(ip', ones)
  {
    hide Pow2, InBlock;
    var size := Pow2(128 - ones);
    forall block: nat
      ensures InBlock(ip, block, size) <==> ip / size == block
      ensures InBlock(ip', block, size) <==> ip' / size == block
    {
      BlockIs(ip, size, block);
      BlockIs(ip', size, block);
    }
    assert InBlock(ip, ip / size, size);
  }

  /** The routes that are used for an address are those that apply to it. */
  lemma CoversIff(r: Route, ip: nat)
    requires r.dst.Some? ==> r.dst.value.ones <= 128
    ensures Covers(r, ip) <==> Applies(r, ip)
  {
    hide Contains, SameTop, Top, V4Mapped;
    if r.dst.Some? {
      ContainsIff(r.dst.value, ip);
      SameTopIff(ip, r.dst.value.ip, r.dst.value.ones);
    }
  }

  /** Route k is the first that applies. */
  ghost predicate IsFirst(routes: seq<Route>, ip: nat, k: nat)
    requires WellFormed(routes)
  {
    && k < |routes| && Applies(routes[k], ip)
    && forall j | 0 <= j < k :: !Applies(routes[j], ip)
  }

  lemma FirstCovers(routes: seq<Route>, ip: nat)
    requires WellFormed(routes)
    ensures forall k | 0 <= k < |routes| :: Covers(routes[k], ip) <==> Applies(routes[k], ip)
  {
    hide Covers, Applies;
    forall k | 0 <= k < |routes|
      ensures Covers(routes[k], ip) <==> Applies(routes[k], ip)
    {
      CoversIff(routes[k], ip);
    }
  }

  lemma {:induction false} FirstCoverAt(routes: seq<Route>, ip: nat, k: nat)
    requires WellFormed(routes) && IsFirst(routes, ip, k)
    ensures FirstCover(routes, ip) == routes[k].dst
  {
    hide Contains, Applies;
    FirstCovers(routes, ip);
    if k > 0 {
      assert forall j | 0 <= j < k - 1 :: routes[1..][j] == routes[j + 1];
      FirstCoverAt(routes[1..], ip, k - 1);
    }
  }

  /** Either no route covers the address or one is the first to. */
  lemma {:induction false} FirstCoverExists(routes: seq<Route>, ip: nat)
    requires WellFormed(routes)
    ensures FirstCover(routes, ip).None? ==> forall k | 0 <= k < |routes| :: !Applies(routes[k], ip)
    ensures FirstCover(routes, ip).Some? ==> exists k: nat :: IsFirst(routes, ip, k)
  {
    hide Contains, Applies;
    FirstCovers(routes, ip);
    if routes != [] {
      if Covers(routes[0], ip) {
        assert IsFirst(routes, ip, 0);
      } else {
        FirstCoverExists(routes[1..], ip);
        assert forall k | 1 <= k < |routes| :: routes[k] == routes[1..][k - 1];
        if k: nat :| IsFirst(routes[1..], ip, k) {
          assert IsFirst(routes, ip, k + 1);
        }
      }
    }
  }

  /** The IP of an address, with or without a prefix. */
  function IpOf(a: Address): Option<nat> {
    match a
    case V6(ip, _, _) => Some(ip)
    case Dotted(low, _) => Some(0xffff * Pow2(32) + low)
    case _ => None
  }

  lemma MappedIs(ip: nat)
    requires V4Mapped(ip)
    ensures ip == 0xffff * Pow2(32) + ip % Pow2(32)
  {
    hide Pow2;
  }

  /** Every rewriting keeps the IP; an address takes the prefix of the first usable route that contains
      it and stays as it is if there is none. */
  lemma RewritingIs(routes: seq<Route>, a: Address)
    requires WellFormed(routes)
    ensures IpOf(Rewritten(routes, a)) == IpOf(a)
    ensures forall k: nat | a.V6? && IsFirst(routes, a.ip, k) ::
              var ones := routes[k].dst.value.ones;
              && (!V4Mapped(a.ip) ==> Rewritten(routes, a) == V6(a.ip, ones, Canonical))
              && (V4Mapped(a.ip) ==>
                    var r := Rewritten(routes, a);
                    && r.Dotted? && r.low < Pow2(32) && a.ip == 0xffff * Pow2(32) + r.low
                    && r.prefix == if ones > 96 then ones - 96 else 0)
    ensures Rewritten(routes, a) == a || (a.V6? && exists k: nat :: IsFirst(routes, a.ip, k))
  {
    hide Contains, FirstCover, Pow2, SameTop;
    if a.V6? {
      FirstCoverExists(routes, a.ip);
      if V4Mapped(a.ip) { MappedIs(a.ip); }
      forall k: nat | IsFirst(routes, a.ip, k)
        ensures Rewritten(routes, a) == WithPrefix(a.ip, routes[k].dst.value.ones)
      {
        FirstHasPrefix(routes, a.ip, k);
      }
    }
  }

  lemma FirstHasPrefix(routes: seq<Route>, ip: nat, k: nat)
    requires WellFormed(routes) && IsFirst(routes, ip, k)
    ensures k < |routes| && routes[k].dst.Some? && FirstCover(routes, ip) == Some(routes[k].dst.value)
  {
    FirstCoverAt(routes, ip, k);
  }

  lemma RewritingIdempotent(routes: seq<Route>, a: Address)
    requires WellFormed(routes)
    ensures Rewritten(routes, Rewritten(routes, a)) == Rewritten(routes, a)
  {
  }

  /** Containment is what a prefix means: the leading bits agree, for mapped addresses too. */
  lemma ContainsIff(net: Net, ip: nat)
    requires net.ones <= 128
    ensures Contains(net, ip) <==> V4Mapped(ip) == V4Mapped(net.ip) && Top(ip, net.ones) == Top(net.ip, net.ones)
  {
    if V4Mapped(ip) && V4Mapped(net.ip) {
      MappedTop(ip, net.ones);
      MappedTop(net.ip, net.ones);
    }
  }

  lemma MappedTop(ip: nat, ones: nat)
    requires V4Mapped(ip) && ones <= 128
    ensures ones >= 96 ==> Top(ip, ones) == 0xffff * Pow2(LowOnes(ones)) + ip % Pow2(32) / Pow2(32 - LowOnes(ones))
    ensures ones <= 96 ==> Top(ip, ones) == 0xffff / Pow2(96 - ones) && ip % Pow2(32) / Pow2(32) == 0
  {
    hide Pow2;
    MappedIs(ip);
    if ones >= 96 {
      Pow2Add(ones - 96, 128 - ones);
      DivideSum(0xffff, Pow2(ones - 96), Pow2(128 - ones), ip % Pow2(32));
    }
    if ones <= 96 {
      Pow2Add(32, 96 - ones);
      DivideTwice(ip, Pow2(32), Pow2(96 - ones));
      DivideIs(ip % Pow2(32), Pow2(32), 0, ip % Pow2(32));
    }
  }

  // ----- division -----

  lemma DivideIs(x: nat, d: nat, q: nat, r: nat)
    requires r < d && x == d * q + r
    ensures x / d == q
  {
    var q', r' := x / d, x % d;
    assert d * q' + r' == d * q + r;
    if q' < q { Scale(d, q' + 1, q); }
    if q < q' { Scale(d, q + 1, q'); }
  }

  lemma Scale(d: nat, a: nat, b: nat)
    requires a <= b
    ensures d * a <= d * b
  {
  }

  lemma DivideSum(q: nat, j: nat, m: nat, low: nat)
    requires m > 0
    ensures (q * (j * m) + low) / m == q * j + low / m
  {
    assert low == m * (low / m) + low % m;
    assert q * (j * m) == m * (q * j);
    assert m * (q * j + low / m) == m * (q * j) + m * (low / m);
    DivideIs(q * (j * m) + low, m, q * j + low / m, low % m);
  }

  lemma Expand(a: nat, b: nat, z: nat, t: nat)
    ensures a * (b * z + t) == a * b * z + a * t
  {
  }

  lemma DivideTwice(x: nat, a: nat, b: nat)
    requires a > 0 && b > 0
    ensures a * b > 0 && x / (a * b) == x / a / b
  {
    var y := x / a;
    Nested(x, a, b, y, x % a, y / b, y % b);
    DivideIs(x, a * b, y / b, a * (y % b) + x % a);
  }

  /** The remainders of two divisions are the remainder of one. */
  lemma Nested(x: nat, a: nat, b: nat, y: nat, r: nat, z: nat, t: nat)
    requires x == a * y + r && y == b * z + t && r < a && t < b
    ensures x == a * b * z + (a * t + r) && a * t + r < a * b
  {
    Expand(a, b, z, t);
    Scale(a, t + 1, b);
  }
}
