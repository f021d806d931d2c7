/** The free-address scanner: a network is cut into chunks of at most 1024 addresses, each chunk is
    handed to nmap, and the addresses nmap did not report as up are collected until the network is
    exhausted or 8000 addresses have been found.

    The running of nmap is an oracle: a function from a subnet (network address, prefix length) to
    what nmap answers. A scan asks about each subnet at most once, except the scan of 0.0.0.0/0, which
    may pass over the address space again (module `WholeSpace`).
 */
module FreeAddresses {
  import opened BigEndian
  import opened Common
  import opened DottedQuad

  const ADDRESS_LIMIT := 8000
  const MIN_SUBNET_MASK_SIZE := 22

  /** nmap's XML output, as far as the scanner reads it. */
  datatype Address = Address(addrType: string, addr: string)
  datatype Host = Host(state: string, addresses: seq<Address>)
  datatype NmapRun = NmapRun(exitCode: int, stderr: string, hosts: Option<seq<Host>>)

  type Nmap = (nat, nat) -> NmapRun

  datatype Outcome = Succeeded | BadCidr | NotCanonical | NmapFailed(exitCode: int, stderr: string) | BadXml

  /** What one nmap run means for the scan. */
  function RunOutcome(run: NmapRun): Outcome {
    if run.exitCode != 0 then NmapFailed(run.exitCode, run.stderr)
    else if run.hosts.None? then BadXml
    else Succeeded
  }

  /** A run that exits with an error fails with it; otherwise output that does not parse fails. */
  ghost predicate Told(run: NmapRun, outcome: Outcome) {
    && (run.exitCode != 0 <==> outcome == NmapFailed(run.exitCode, run.stderr))
    && (run.exitCode == 0 && run.hosts.None? <==> outcome == BadXml)
    && (run.exitCode == 0 && run.hosts.Some? <==> outcome == Succeeded)
  }

  // ----- occupied addresses -----

  function FirstIpv4(addresses: seq<Address>): Option<string> {
    if addresses == [] then None
    else if addresses[0].addrType == "ipv4" then Some(addresses[0].addr)
    else FirstIpv4(addresses[1..])
  }

  /** The address at position j is the first IPv4 address of the list. */
  ghost predicate IsFirstIpv4(addresses: seq<Address>, j: nat, name: string) {
    && j < |addresses| && addresses[j] == Address("ipv4", name)
    && forall k | 0 <= k < j :: addresses[k].addrType != "ipv4"
  }

  lemma {:induction false} FirstIpv4Iff(addresses: seq<Address>, name: string)
    ensures FirstIpv4(addresses) == Some(name) <==> exists j: nat :: IsFirstIpv4(addresses, j, name)
  {
    if addresses != [] {
      FirstIpv4Iff(addresses[1..], name);
      if addresses[0].addrType == "ipv4" {
        if addresses[0].addr == name { assert IsFirstIpv4(addresses, 0, name); }
      } else {
        if j: nat :| IsFirstIpv4(addresses[1..], j, name) {
          assert forall k | 1 <= k < j + 1 :: addresses[k] == addresses[1..][k - 1];
          assert IsFirstIpv4(addresses, j + 1, name);
        }
        if j: nat :| IsFirstIpv4(addresses, j, name) {
          assert IsFirstIpv4(addresses[1..], j - 1, name);
        }
      }
    }
  }

  /** The names of the hosts that are up: the first IPv4 address listed for each, and no other. */
  function Occupied(hosts: seq<Host>): set<string> {
    if hosts == [] then {}
    else
      var h := hosts[|hosts| - 1];
      var first := FirstIpv4(h.addresses);
      Occupied(hosts[..|hosts| - 1]) + if h.state == "up" && first.Some? then {first.value} else {}
  }

  lemma {:induction false} OccupiedExact(hosts: seq<Host>, name: string)
    ensures name in Occupied(hosts) <==>
            exists i :: 0 <= i < |hosts| && hosts[i].state == "up" && FirstIpv4(hosts[i].addresses) == Some(name)
  {
    if hosts == [] {
    } else {
      var n := |hosts| - 1;
      OccupiedExact(hosts[..n], name);
      if hosts[n].state == "up" && FirstIpv4(hosts[n].addresses) == Some(name) {
        assert name in Occupied(hosts);
      } else if i :| 0 <= i < |hosts| && hosts[i].state == "up" && FirstIpv4(hosts[i].addresses) == Some(name) {
        assert hosts[..n][i] == hosts[i];
      }
      if i :| 0 <= i < n && hosts[..n][i].state == "up" && FirstIpv4(hosts[..n][i].addresses) == Some(name) {
        assert hosts[..n][i] == hosts[i];
      }
    }
  }

  method CollectOccupied(hosts: seq<Host>) returns (occupied: set<string>)
    ensures occupied == Occupied(hosts)
  {
    occupied := {};
    for i := 0 to |hosts|
      invariant occupied == Occupied(hosts[..i])
    {
      assert hosts[..i + 1][..i] == hosts[..i];
      var h := hosts[i];
      ghost var before := occupied;
      if h.state == "up" {
        var j := 0;
        while j < |h.addresses|
          invariant 0 <= j <= |h.addresses|
          invariant FirstIpv4(h.addresses) == FirstIpv4(h.addresses[j..])
          invariant occupied == before
        {
          if h.addresses[j].addrType == "ipv4" {
            occupied := occupied + {h.addresses[j].addr};
            break;
          }
          j := j + 1;
        }
      }
    }
    assert hosts[..|hosts|] == hosts;
  }

  // ----- the plain filter -----

  const SPACE := 0x1_0000_0000

  function ChunkSize(mask: nat): (c: nat)
    requires mask <= 32
    ensures c >= 1
  {
    Pow2(32 - mask)
  }

  function Name(v: nat): string {
    Dotted(Bytes(v, 4))
  }

  /** The addresses one nmap run reports as up; a failed run reports none. */
  function OccupiedIn(run: NmapRun): set<string> {
    if run.exitCode == 0 && run.hosts.Some? then Occupied(run.hosts.value) else {}
  }

  /** Whether address v was reported up by the scan of the chunk it lies in. */
  ghost function Up(nmap: Nmap, mask: nat): nat -> bool
    requires mask <= 32
  {
    (v: nat) => Name(v) in OccupiedIn(nmap(Floor(v, ChunkSize(mask)), mask))
  }

  /** What it means to be up: the nmap run over the chunk of the address succeeded, and lists a host that
      is up with the text of the address as its first IPv4 address. */
  lemma UpIff(nmap: Nmap, mask: nat, base: nat, v: nat)
    requires mask <= 32 && Aligned(base, ChunkSize(mask)) && base <= v < base + ChunkSize(mask)
    ensures Up(nmap, mask)(v) <==>
            var run := nmap(base, mask);
            && run.exitCode == 0 && run.hosts.Some?
            && exists i, j: nat :: 0 <= i < |run.hosts.value| && run.hosts.value[i].state == "up"
                                   && IsFirstIpv4(run.hosts.value[i].addresses, j, Name(v))
  {
    hide Name, Pow2, IsFirstIpv4, Occupied, FirstIpv4, Floor;
    FloorIs(base, ChunkSize(mask), v);
    var run := nmap(base, mask);
    if run.hosts.Some? {
      var hosts := run.hosts.value;
      OccupiedExact(hosts, Name(v));
      forall i | 0 <= i < |hosts|
        ensures FirstIpv4(hosts[i].addresses) == Some(Name(v))
                <==> exists j: nat :: IsFirstIpv4(hosts[i].addresses, j, Name(v))
      {
        FirstIpv4Iff(hosts[i].addresses, Name(v));
      }
    }
  }

  /** The name of an address is its number in dotted decimal, most significant byte first. */
  lemma NameIs(v: nat) returns (w: nat, x: nat, y: nat, z: nat, texts: seq<string>)
    requires v < SPACE
    ensures w < 256 && x < 256 && y < 256 && z < 256 && v == ((w * 256 + x) * 256 + y) * 256 + z
    ensures |texts| == 4 && Numeral(texts[0], w) && Numeral(texts[1], x) && Numeral(texts[2], y) && Numeral(texts[3], z)
    ensures Name(v) == texts[0] + "." + texts[1] + "." + texts[2] + "." + texts[3]
  {
    hide Pow2, Numeral, Dotted, Bytes;
    SpaceIs();
    ValueOfBytes(v, 4);
    var ip := Bytes(v, 4);
    var a, b, c, d := DottedIs(ip);
    w, x, y, z, texts := ip[0], ip[1], ip[2], ip[3], [a, b, c, d];
    FourBytes(ip);
  }

  lemma FourBytes(ip: seq<Byte>)
    requires |ip| == 4
    ensures Value(ip) == ((ip[0] as int * 256 + ip[1]) * 256 + ip[2]) * 256 + ip[3]
  {
    var three, two, one := ip[..3], ip[..2], ip[..1];
    assert three[..2] == two && two[..1] == one && one[..0] == [];
    assert Value(one) == ip[0];
    assert Value(two) == Value(one) * 256 + ip[1];
    assert Value(three) == Value(two) * 256 + ip[2];
  }

  /** The addresses of [lo, hi) that are not up, in ascending order. */
  ghost function FreeValues(up: nat -> bool, lo: nat, hi: nat): seq<nat>
    decreases hi
  {
    if hi <= lo then []
    else FreeValues(up, lo, hi - 1) + if up(hi - 1) then [] else [hi - 1]
  }

  ghost function Names(vs: seq<nat>): (names: seq<string>)
    ensures |names| == |vs|
  {
    if vs == [] then [] else Names(vs[..|vs| - 1]) + [Name(vs[|vs| - 1])]
  }

  /** The filter keeps exactly the addresses that are not up, each once, in ascending order. */
  lemma {:induction false} FreeValuesExact(up: nat -> bool, lo: nat, hi: nat)
    ensures var vs := FreeValues(up, lo, hi);
            && (forall v :: v in vs <==> lo <= v < hi && !up(v))
            && (forall i, j | 0 <= i < j < |vs| :: vs[i] < vs[j])
            && |vs| <= if lo <= hi then hi - lo else 0
    decreases hi
  {
    if hi <= lo {
    } else {
      FreeValuesExact(up, lo, hi - 1);
      var vs, vs' := FreeValues(up, lo, hi), FreeValues(up, lo, hi - 1);
      assert forall i | 0 <= i < |vs'| :: vs'[i] in vs';
    }
  }

  lemma {:induction false} FreeValuesSplit(up: nat -> bool, lo: nat, mid: nat, hi: nat)
    requires lo <= mid <= hi
    ensures FreeValues(up, lo, hi) == FreeValues(up, lo, mid) + FreeValues(up, mid, hi)
    decreases hi
  {
    if mid < hi {
      FreeValuesSplit(up, lo, mid, hi - 1);
    }
  }

  lemma {:induction false} NamesAt(vs: seq<nat>, i: nat)
    requires i < |vs|
    ensures Names(vs)[i] == Name(vs[i])
  {
    if i < |vs| - 1 { NamesAt(vs[..|vs| - 1], i); }
  }

  lemma {:induction false} NamesConcat(a: seq<nat>, b: seq<nat>)
    ensures Names(a + b) == Names(a) + Names(b)
  {
    if b == [] {
      assert a + b == a;
    } else {
      assert (a + b)[..|a + b| - 1] == a + b[..|b| - 1];
      NamesConcat(a, b[..|b| - 1]);
    }
  }

  lemma NameInjective(v: nat, w: nat)
    requires v < SPACE && w < SPACE && Name(v) == Name(w)
    ensures v == w
  {
    SpaceIs();
    DottedInjective(Bytes(v, 4), Bytes(w, 4));
    ValueOfBytes(v, 4);
    ValueOfBytes(w, 4);
  }

  lemma NamesDistinct(vs: seq<nat>)
    requires forall i | 0 <= i < |vs| :: vs[i] < SPACE
    requires forall i, j | 0 <= i < j < |vs| :: vs[i] < vs[j]
    ensures Distinct(Names(vs))
  {
    forall i, j | 0 <= i < j < |vs|
      ensures Names(vs)[i] != Names(vs)[j]
    {
      NamesAt(vs, i);
      NamesAt(vs, j);
      if Name(vs[i]) == Name(vs[j]) { NameInjective(vs[i], vs[j]); }
    }
  }

  // ----- subnets -----

  lemma SpaceIs()
    ensures SPACE == Pow2(32)
  {
    assert Pow2(8) == 256 by { assert Pow2(4) == 16; Pow2Add(4, 4); }
    Pow2Add(8, 8);
    Pow2Add(16, 16);
  }

  /** The address after the last one is zero. */
  function Wrap(v: nat): nat {
    if v < SPACE then v else v - SPACE
  }

  lemma StepWraps(ip: seq<Byte>, mask: nat)
    requires |ip| == 4 && 0 < mask <= 32
    ensures Value(Incremented(ip)) == Wrap(Value(ip) + 1)
    ensures Value(SubnetIncremented(ip, mask)) == Wrap(Value(ip) + ChunkSize(mask))
  {
    hide Value, Pow2, Incremented, SubnetIncremented;
    SpaceIs();
    ValueBound(ip);
    IncrementedValue(ip);
    SubnetIncrementedValue(ip, mask);
    Pow2Monotone(32 - mask, 32);
    WrapIsMod(Value(ip) + 1);
    WrapIsMod(Value(ip) + ChunkSize(mask));
  }

  lemma WrapIsMod(v: nat)
    requires v < 2 * SPACE
    ensures Wrap(v) == v % SPACE
  {
  }

  /** The test whether an address has the same prefix as the network. */
  predicate Contains(base: nat, ones: nat, ip: seq<Byte>)
    requires ones <= 32 && |ip| == 4
  {
    Floor(Value(ip), ChunkSize(ones)) == Floor(base, ChunkSize(ones))
  }

  /** The last multiple of `size` up to v: v with the bits after the prefix cleared. */
  function Floor(v: nat, size: nat): (f: nat)
    requires size > 0
    ensures f <= v < f + size
  {
    if v < size then 0 else size + Floor(v - size, size)
  }

  /** A network address: no bits set after the prefix. */
  predicate Aligned(v: nat, size: nat)
    requires size > 0
  {
    Floor(v, size) == v
  }

  lemma {:induction false} FloorIs(base: nat, size: nat, v: nat)
    requires size > 0 && Aligned(base, size)
    ensures Floor(v, size) == base <==> base <= v < base + size
  {
    if size <= base && size <= v {
      FloorIs(base - size, size, v - size);
    }
  }

  lemma {:induction false} AlignedIsMultiple(v: nat, size: nat) returns (q: nat)
    requires size > 0 && Aligned(v, size)
    ensures v == q * size
  {
    if v < size {
      q := 0;
    } else {
      q := AlignedIsMultiple(v - size, size);
      assert (q + 1) * size == q * size + size;
      q := q + 1;
    }
  }

  lemma {:induction false} MultipleIsAligned(q: nat, size: nat)
    requires size > 0
    ensures Aligned(q * size, size)
  {
    if q > 0 {
      MultipleIsAligned(q - 1, size);
      assert q * size == (q - 1) * size + size;
    }
  }

  /** An aligned network lies inside the address space, and unless it is the whole space, the
      address after its last one (which may wrap to zero) is outside it. */
  lemma NetworkFits(base: nat, ones: nat)
    requires 1 <= ones <= 32 && base < SPACE && Aligned(base, ChunkSize(ones))
    ensures base + ChunkSize(ones) <= SPACE
    ensures base + ChunkSize(ones) == SPACE ==> base > 0
  {
    SpaceIs();
    Pow2Add(ones, 32 - ones);
    assert Pow2(ones) == 2 * Pow2(ones - 1);
    AlignedFits(base, ChunkSize(ones), Pow2(ones), SPACE);
  }

  lemma AlignedFits(base: nat, size: nat, n: nat, space: nat)
    requires size > 0 && n >= 2 && space == n * size
    requires base < space && Aligned(base, size)
    ensures base + size <= space && (base + size == space ==> base > 0)
  {
    var q := AlignedIsMultiple(base, size);
    MulLess(q, n, size);
    MulMonotone(q + 1, n, size);
    assert (q + 1) * size == q * size + size;
    MulMonotone(2, n, size);
  }

  lemma MulMonotone(a: nat, b: nat, c: nat)
    requires a <= b
    ensures a * c <= b * c
  {
  }

  lemma MulLess(a: nat, b: nat, c: nat)
    requires a * c < b * c
    ensures a < b
  {
    if b <= a { MulMonotone(b, a, c); }
  }

  /** Scans the subnet `ip/mask`; the text handed to nmap is the dotted form of `ip`. */
  method ScanSubNetwork(ip: seq<Byte>, mask: nat, nmap: Nmap) returns (free: seq<string>, outcome: Outcome)
    requires |ip| == 4 && 1 <= mask <= 32
    ensures !Aligned(Value(ip), ChunkSize(mask)) ==> outcome == NotCanonical && free == []
    ensures Aligned(Value(ip), ChunkSize(mask)) ==>
              && outcome == RunOutcome(nmap(Value(ip), mask))
              && Told(nmap(Value(ip), mask), outcome)
              && free == if outcome.Succeeded?
                         then Names(FreeValues(Up(nmap, mask), Value(ip), Value(ip) + ChunkSize(mask)))
                         else []
  {
    if !Aligned(Value(ip), ChunkSize(mask)) {
      return [], NotCanonical;
    }
    var run := nmap(Value(ip), mask);
    if run.exitCode != 0 {
      return [], NmapFailed(run.exitCode, run.stderr);
    }
    if run.hosts.None? {
      return [], BadXml;
    }
    var occupied := CollectOccupied(run.hosts.value);
    free := ListFree(ip, mask, nmap, occupied);
    outcome := Succeeded;
  }

  /** The loop over the addresses of one subnet. */
  method ListFree(ip: seq<Byte>, mask: nat, ghost nmap: Nmap, occupied: set<string>) returns (free: seq<string>)
    requires |ip| == 4 && 1 <= mask <= 32
    requires Aligned(Value(ip), ChunkSize(mask))
    requires occupied == OccupiedIn(nmap(Value(ip), mask))
    ensures free == Names(FreeValues(Up(nmap, mask), Value(ip), Value(ip) + ChunkSize(mask)))
  {
    hide Name, Names, FreeValues, Dotted, Value, Floor, Pow2, Incremented;
    free := [];
    var cursor := new Byte[4](i requires 0 <= i < 4 => ip[i]);
    assert cursor[..] == ip;
    ghost var base, size, k := Value(ip), ChunkSize(mask), 0;
    NothingFree(Up(nmap, mask), base);
    SpaceBound(ip);
    NetworkFits(base, mask);
    while Contains(Value(ip), mask, cursor[..])
      invariant fresh(cursor) && 0 <= k <= size
      invariant Value(cursor[..]) == Wrap(base + k)
      invariant free == Names(FreeValues(Up(nmap, mask), base, base + k))
      decreases size - k
    {
      FloorIs(base, size, Value(cursor[..]));
      assert k < size && Value(cursor[..]) == base + k;
      NextAddress(nmap, mask, base, cursor[..]);
      if Dotted(cursor[..]) !in occupied {
        free := free + [Dotted(cursor[..])];
      }
      StepWraps(cursor[..], mask);
      Inc(cursor);
      k := k + 1;
    }
    FloorIs(base, size, Value(cursor[..]));
  }

  lemma SpaceBound(ip: seq<Byte>)
    requires |ip| == 4
    ensures Value(ip) < SPACE
  {
    SpaceIs();
    ValueBound(ip);
  }

  lemma NextAddress(nmap: Nmap, mask: nat, base: nat, ip: seq<Byte>)
    requires |ip| == 4 && mask <= 32 && Aligned(base, ChunkSize(mask))
    requires base <= Value(ip) < base + ChunkSize(mask)
    ensures var v, up := Value(ip), Up(nmap, mask);
            && Name(v) == Dotted(ip)
            && up(v) == (Dotted(ip) in OccupiedIn(nmap(base, mask)))
            && Names(FreeValues(up, base, v + 1)) == Names(FreeValues(up, base, v)) + if up(v) then [] else [Name(v)]
  {
    hide Value, Bytes, Dotted, Names, FreeValues, Floor, Pow2;
    BytesOfValue(ip);
    FloorIs(base, ChunkSize(mask), Value(ip));
    ExtendFree(Up(nmap, mask), base, Value(ip));
  }

  lemma NothingFree(up: nat -> bool, lo: nat)
    ensures FreeValues(up, lo, lo) == [] && Names([]) == []
  {
  }

  lemma ExtendFree(up: nat -> bool, lo: nat, hi: nat)
    requires lo <= hi
    ensures Names(FreeValues(up, lo, hi + 1)) == Names(FreeValues(up, lo, hi)) + if up(hi) then [] else [Name(hi)]
  {
    hide Name;
    var vs := FreeValues(up, lo, hi);
    if up(hi) {
      assert FreeValues(up, lo, hi + 1) == vs;
    } else {
      assert FreeValues(up, lo, hi + 1) == vs + [hi];
      assert (vs + [hi])[..|vs|] == vs;
    }
  }

  // ----- networks -----

  function ChunkMask(ones: nat): (mask: nat)
    requires ones <= 32
    ensures ones <= mask <= 32
  {
    if ones < MIN_SUBNET_MASK_SIZE then MIN_SUBNET_MASK_SIZE else ones
  }

  function ChunkCount(ones: nat): (n: nat)
    requires ones <= 32
    ensures n >= 1
  {
    Pow2(ChunkMask(ones) - ones)
  }

  /** The distance of chunk k from the start of its network. */
  function Offset(ones: nat, k: nat): nat
    requires ones <= 32
  {
    if k == 0 then 0 else Offset(ones, k - 1) + ChunkSize(ChunkMask(ones))
  }

  lemma {:induction false} OffsetIs(ones: nat, k: nat)
    requires ones <= 32
    ensures Offset(ones, k) == k * ChunkSize(ChunkMask(ones))
  {
    if k > 0 {
      OffsetIs(ones, k - 1);
      assert k * ChunkSize(ChunkMask(ones)) == (k - 1) * ChunkSize(ChunkMask(ones)) + ChunkSize(ChunkMask(ones));
    }
  }

  /** The chunks tile the network, none is larger than 1024 addresses, and every chunk starts at a
      multiple of the chunk size. */
  lemma ChunksTile(base: nat, ones: nat, k: nat)
    requires ones <= 32 && k <= ChunkCount(ones)
    requires Aligned(base, ChunkSize(ones))
    ensures Offset(ones, k) <= ChunkSize(ones)
    ensures Offset(ones, k) == ChunkSize(ones) <==> k == ChunkCount(ones)
    ensures Aligned(base + Offset(ones, k), ChunkSize(ChunkMask(ones)))
    ensures ChunkSize(ChunkMask(ones)) == if ChunkSize(ones) < 1024 then ChunkSize(ones) else 1024
  {
    var c, n := ChunkSize(ChunkMask(ones)), ChunkCount(ones);
    Pow2Add(ChunkMask(ones) - ones, 32 - ChunkMask(ones));
    Pow2Monotone(32 - ChunkMask(ones), 10);
    assert Pow2(10) == 1024 by { Pow2Add(5, 5); }
    OffsetIs(ones, k);
    TileArithmetic(base, n * c, n, c, k);
  }

  lemma TileArithmetic(base: nat, size: nat, n: nat, c: nat, k: nat)
    requires c > 0 && n > 0 && size == n * c && Aligned(base, size) && k <= n
    ensures k * c <= size && (k * c == size <==> k == n)
    ensures Aligned(base + k * c, c)
  {
    MulMonotone(k, n, c);
    if k < n {
      MulMonotone(k + 1, n, c);
      assert (k + 1) * c == k * c + c;
    }
    var q := AlignedIsMultiple(base, size);
    assert q * (n * c) == (q * n) * c;
    assert (q * n + k) * c == (q * n) * c + k * c;
    MultipleIsAligned(q * n + k, c);
  }

  /** The outcome of scanning chunk j of a network. */
  ghost function ChunkOutcome(nmap: Nmap, base: nat, ones: nat, j: nat): Outcome
    requires ones <= 32
  {
    RunOutcome(nmap(base + Offset(ones, j), ChunkMask(ones)))
  }

  /** The free addresses of the first k chunks of a network. */
  ghost function FreeInChunks(nmap: Nmap, base: nat, ones: nat, k: nat): seq<nat>
    requires ones <= 32
  {
    FreeValues(Up(nmap, ChunkMask(ones)), base, base + Offset(ones, k))
  }

  /** What the loop over chunks returns after it has scanned k of them. */
  ghost predicate ChunkedScan(nmap: Nmap, base: nat, ones: nat, k: nat, free: seq<string>, outcome: Outcome)
    requires ones <= 32
  {
    && ChunksDone(nmap, base, ones, k, free)
    && (if outcome.Succeeded?
        then k == ChunkCount(ones) || |free| >= ADDRESS_LIMIT
        else k < ChunkCount(ones) && |free| < ADDRESS_LIMIT && outcome == ChunkOutcome(nmap, base, ones, k))
  }

  ghost predicate ChunksDone(nmap: Nmap, base: nat, ones: nat, k: nat, free: seq<string>)
    requires ones <= 32
  {
    && k <= ChunkCount(ones)
    && free == Names(FreeInChunks(nmap, base, ones, k))
    && (forall j | 0 <= j < k :: ChunkOutcome(nmap, base, ones, j).Succeeded?)
    && (k > 0 ==> |FreeInChunks(nmap, base, ones, k - 1)| < ADDRESS_LIMIT)
  }

  /** All free addresses of a network, by the plain filter. */
  ghost function AllFree(nmap: Nmap, base: nat, ones: nat): seq<string>
    requires ones <= 32
  {
    Names(FreeValues(Up(nmap, ChunkMask(ones)), base, base + ChunkSize(ones)))
  }

  /** The free addresses of a network are those in its range that are not up, in ascending order. */
  lemma AllFreeIs(nmap: Nmap, base: nat, ones: nat)
    returns (vs: seq<nat>)
    requires ones <= 32
    ensures |AllFree(nmap, base, ones)| == |vs|
    ensures forall i | 0 <= i < |vs| :: AllFree(nmap, base, ones)[i] == Name(vs[i])
    ensures forall i, j | 0 <= i < j < |vs| :: vs[i] < vs[j]
    ensures forall v :: v in vs <==> base <= v < base + ChunkSize(ones) && !Up(nmap, ChunkMask(ones))(v)
  {
    hide Name, Names, FreeValues, Pow2, Up;
    var up := Up(nmap, ChunkMask(ones));
    vs := FreeValues(up, base, base + ChunkSize(ones));
    FreeValuesExact(up, base, base + ChunkSize(ones));
    forall i | 0 <= i < |vs|
      ensures Names(vs)[i] == Name(vs[i])
    {
      NamesAt(vs, i);
    }
  }

  /** The chunked scan refines the plain filter: its answer is a duplicate-free prefix of all the
      free addresses, all of them unless the limit was reached, and never more than 9023. */
  lemma ChunkedScanRefinesFilter(nmap: Nmap, base: nat, ones: nat, k: nat, free: seq<string>, outcome: Outcome)
    requires 1 <= ones <= 32 && base < SPACE && Aligned(base, ChunkSize(ones))
    requires ChunkedScan(nmap, base, ones, k, free, outcome)
    ensures free <= AllFree(nmap, base, ones)
    ensures Distinct(free)
    ensures outcome.Succeeded? && |free| < 8000 ==> free == AllFree(nmap, base, ones)
    ensures !outcome.Succeeded? ==> |free| < 8000
    ensures |free| < 8000 + ChunkSize(ChunkMask(ones)) <= 9024
  {
    hide Name, Names, FreeValues, Pow2, Floor;
    ChunksTile(base, ones, k);
    NetworkFits(base, ones);
    FreePrefix(Up(nmap, ChunkMask(ones)), base, base + Offset(ones, k), base + ChunkSize(ones));
    LastChunkBound(nmap, base, ones, k);
  }

  lemma LastChunkBound(nmap: Nmap, base: nat, ones: nat, k: nat)
    requires ones <= 32
    requires k > 0 ==> |FreeInChunks(nmap, base, ones, k - 1)| < ADDRESS_LIMIT
    ensures |FreeInChunks(nmap, base, ones, k)| < ADDRESS_LIMIT + ChunkSize(ChunkMask(ones))
  {
    hide Up, FreeValues, Pow2;
    NothingFree(Up(nmap, ChunkMask(ones)), base);
    if k > 0 {
      var up, mid := Up(nmap, ChunkMask(ones)), base + Offset(ones, k - 1);
      FreeValuesSplit(up, base, mid, base + Offset(ones, k));
      FreeValuesExact(up, mid, base + Offset(ones, k));
    }
  }

  lemma FreePrefix(up: nat -> bool, lo: nat, mid: nat, hi: nat)
    requires lo <= mid <= hi <= SPACE
    ensures Names(FreeValues(up, lo, mid)) <= Names(FreeValues(up, lo, hi))
    ensures Distinct(Names(FreeValues(up, lo, mid)))
  {
    var vs := FreeValues(up, lo, mid);
    FreeValuesSplit(up, lo, mid, hi);
    NamesConcat(vs, FreeValues(up, mid, hi));
    FreeValuesExact(up, lo, mid);
    assert forall i | 0 <= i < |vs| :: vs[i] in vs;
    NamesDistinct(vs);
  }

  /** The loop over the chunks of a network. */
  method ScanChunks(ip: seq<Byte>, ones: nat, nmap: Nmap)
    returns (free: seq<string>, outcome: Outcome, ghost k: nat)
    requires |ip| == 4 && 1 <= ones <= 32 && Aligned(Value(ip), ChunkSize(ones))
    ensures ChunkedScan(nmap, Value(ip), ones, k, free, outcome)
    ensures outcome != NotCanonical && outcome != BadCidr
  {
    hide Name, Names, FreeValues, Value, Floor, Pow2, SubnetIncremented;
    free, k := [], 0;
    var mask := if ones < MIN_SUBNET_MASK_SIZE then MIN_SUBNET_MASK_SIZE else ones;
    var cursor := new Byte[4](i requires 0 <= i < 4 => ip[i]);
    assert cursor[..] == ip;
    ghost var base := Value(ip);
    SpaceBound(ip);
    NothingFree(Up(nmap, ChunkMask(ones)), base);
    while Contains(Value(ip), ones, cursor[..]) && |free| < ADDRESS_LIMIT
      invariant fresh(cursor) && 0 <= k <= ChunkCount(ones)
      invariant Value(cursor[..]) == Wrap(base + Offset(ones, k))
      invariant ChunksDone(nmap, base, ones, k, free)
      decreases ChunkCount(ones) - k
    {
      ChunkPosition(base, ones, k, cursor[..]);
      var result, e := ScanSubNetwork(cursor[..], mask, nmap);
      if !e.Succeeded? {
        return free, e, k;
      }
      AppendChunk(nmap, base, ones, k);
      NextChunk(cursor[..], ones, k, base);
      free := free + result;
      IncSubnet(cursor, mask);
      k := k + 1;
    }
    outcome := Succeeded;
    ChunkPosition(base, ones, k, cursor[..]);
  }

  /** The chunks are visited in order, aligned and inside the network; after the last one the
      cursor has left the network, even when it wrapped to zero. */
  lemma ChunkPosition(base: nat, ones: nat, k: nat, cursor: seq<Byte>)
    requires 1 <= ones <= 32 && base < SPACE && Aligned(base, ChunkSize(ones))
    requires k <= ChunkCount(ones) && |cursor| == 4
    requires Value(cursor) == Wrap(base + Offset(ones, k))
    ensures Contains(base, ones, cursor) <==> k < ChunkCount(ones)
    ensures k < ChunkCount(ones) ==>
              && Value(cursor) == base + Offset(ones, k)
              && Aligned(Value(cursor), ChunkSize(ChunkMask(ones)))
              && Offset(ones, k + 1) <= ChunkSize(ones)
  {
    hide Value, Floor, Pow2;
    ChunksTile(base, ones, k);
    NetworkFits(base, ones);
    FloorIs(base, ChunkSize(ones), Value(cursor));
    if k < ChunkCount(ones) {
      ChunksTile(base, ones, k + 1);
    }
  }

  lemma NextChunk(cursor: seq<Byte>, ones: nat, k: nat, base: nat)
    requires 1 <= ones <= 32 && |cursor| == 4
    requires Value(cursor) == base + Offset(ones, k)
    ensures Value(SubnetIncremented(cursor, ChunkMask(ones))) == Wrap(base + Offset(ones, k + 1))
  {
    hide Value, SubnetIncremented, Pow2;
    StepWraps(cursor, ChunkMask(ones));
  }

  lemma AppendChunk(nmap: Nmap, base: nat, ones: nat, k: nat)
    requires ones <= 32
    ensures var at, next := base + Offset(ones, k), base + Offset(ones, k + 1);
            && Names(FreeInChunks(nmap, base, ones, k + 1))
            == Names(FreeInChunks(nmap, base, ones, k)) + Names(FreeValues(Up(nmap, ChunkMask(ones)), at, next))
  {
    hide Up, FreeValues, Names, Pow2;
    var up := Up(nmap, ChunkMask(ones));
    FreeValuesSplit(up, base, base + Offset(ones, k), base + Offset(ones, k + 1));
    NamesConcat(FreeInChunks(nmap, base, ones, k), FreeValues(up, base + Offset(ones, k), base + Offset(ones, k + 1)));
  }
}
