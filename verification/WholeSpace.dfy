/** The scan of 0.0.0.0/0. Every address is in that network, so the loop over chunks has no end of its
    own: it passes over the address space again and again, and stops only at the address limit or at a
    failing nmap run. nmap may answer differently on every pass.
 */
module WholeSpace {
  import opened BigEndian
  import opened Common
  import opened FreeAddresses

  /** What nmap answers on each pass over the address space. */
  type Answers = nat -> Nmap

  const CHUNKS := 4_194_304

  /** A free address, with the pass it was found on. */
  datatype Finding = Finding(pass: nat, address: nat)

  function Addresses(found: seq<Finding>): (vs: seq<nat>)
    ensures |vs| == |found| && forall i | 0 <= i < |found| :: vs[i] == found[i].address
  {
    seq(|found|, i requires 0 <= i < |found| => found[i].address)
  }

  ghost function Findings(pass: nat, vs: seq<nat>): (found: seq<Finding>)
    ensures |found| == |vs| && forall i | 0 <= i < |vs| :: found[i] == Finding(pass, vs[i])
  {
    seq(|vs|, i requires 0 <= i < |vs| => Finding(pass, vs[i]))
  }

  ghost predicate NotUp(answers: Answers, f: Finding) {
    f.address < SPACE && !Up(answers(f.pass), MIN_SUBNET_MASK_SIZE)(f.address)
  }

  ghost predicate RunFails(answers: Answers, pass: nat, chunk: nat) {
    chunk < CHUNKS && !RunOutcome(answers(pass)(1024 * chunk, MIN_SUBNET_MASK_SIZE)).Succeeded?
  }

  // ----- the loop -----

  datatype LoopState = LoopState(cursor: seq<Byte>, found: seq<Finding>)

  ghost function ChunkFree(nmap: Nmap, base: nat): seq<nat> {
    FreeValues(Up(nmap, MIN_SUBNET_MASK_SIZE), base, base + ChunkSize(MIN_SUBNET_MASK_SIZE))
  }

  /** The state of the loop before iteration k. */
  ghost function LoopAt(answers: Answers, k: nat): (s: LoopState)
    ensures |s.cursor| == 4
  {
    if k == 0 then LoopState(Bytes(0, 4), [])
    else
      var s, pass := LoopAt(answers, k - 1), (k - 1) / CHUNKS;
      LoopState(SubnetIncremented(s.cursor, MIN_SUBNET_MASK_SIZE),
                s.found + Findings(pass, ChunkFree(answers(pass), Value(s.cursor))))
  }

  ghost predicate Stops(answers: Answers, k: nat) {
    || |LoopAt(answers, k).found| >= ADDRESS_LIMIT
    || !RunOutcome(answers(k / CHUNKS)(Value(LoopAt(answers, k).cursor), MIN_SUBNET_MASK_SIZE)).Succeeded?
  }

  /** What the loop returns when it stops before iteration k, as it does at the first chance. */
  ghost predicate StopsWith(answers: Answers, k: nat, free: seq<string>, outcome: Outcome) {
    && Stops(answers, k)
    && (forall j: nat | j < k :: !Stops(answers, j))
    && free == Names(Addresses(LoopAt(answers, k).found))
    && outcome == if |free| >= ADDRESS_LIMIT then Succeeded
                  else RunOutcome(answers(k / CHUNKS)(Value(LoopAt(answers, k).cursor), MIN_SUBNET_MASK_SIZE))
  }

  lemma {:induction false} CursorAt(answers: Answers, k: nat)
    ensures Value(LoopAt(answers, k).cursor) == 1024 * (k % CHUNKS)
  {
    hide Bytes, Value, SubnetIncremented, Pow2, ChunkFree;
    if k == 0 {
      ValueOfBytes(0, 4);
    } else {
      CursorAt(answers, k - 1);
      StepWraps(LoopAt(answers, k - 1).cursor, MIN_SUBNET_MASK_SIZE);
      ChunkSizeIs();
      NextCursor(k - 1);
    }
  }

  lemma NextCursor(k: nat)
    ensures Wrap(1024 * (k % CHUNKS) + 1024) == 1024 * ((k + 1) % CHUNKS)
  {
  }

  lemma ChunkSizeIs()
    ensures ChunkSize(MIN_SUBNET_MASK_SIZE) == 1024
  {
    Pow2Add(5, 5);
  }

  /** The scan, for as long as it takes. It takes what the code takes: for ever, if the loop never
      stops, so it is promised only where the loop does. */
  method ScanWholeSpace(answers: Answers) returns (free: seq<string>, outcome: Outcome, ghost k: nat)
    requires exists n: nat :: Stops(answers, n)
    ensures StopsWith(answers, k, free, outcome)
    ensures outcome != NotCanonical && outcome != BadCidr
  {
    hide Value, Pow2, SubnetIncremented, Contains, Aligned, FreeValues, Names, Addresses, LoopAt, Up;
    ghost var n: nat :| Stops(answers, n);
    free, k := [], 0;
    var i := 0;
    var cursor := new Byte[4](_ => 0);
    Start(answers, cursor[..]);
    while Contains(0, 0, cursor[..]) && |free| < ADDRESS_LIMIT
      invariant fresh(cursor) && 0 <= k <= n && cursor[..] == LoopAt(answers, k).cursor
      invariant free == Names(Addresses(LoopAt(answers, k).found))
      invariant i == k
      invariant forall j: nat | j < k :: !Stops(answers, j)
      decreases n - k
    {
      ChunkStart(answers, k);
      var result, e := ScanSubNetwork(cursor[..], MIN_SUBNET_MASK_SIZE, answers(i / CHUNKS));
      if !e.Succeeded? {
        return free, e, k;
      }
      assert !Stops(answers, k);
      AppendFindings(answers, k);
      free := free + result;
      IncSubnet(cursor, MIN_SUBNET_MASK_SIZE);
      i, k := i + 1, k + 1;
    }
    AlwaysInside(cursor[..]);
    outcome := Succeeded;
  }

  lemma Start(answers: Answers, cursor: seq<Byte>)
    requires |cursor| == 4 && forall i | 0 <= i < 4 :: cursor[i] == 0
    ensures cursor == LoopAt(answers, 0).cursor && Names(Addresses(LoopAt(answers, 0).found)) == []
  {
    assert Bytes(0, 1) == [0] && Bytes(0, 2) == [0, 0] && Bytes(0, 3) == [0, 0, 0];
    assert Bytes(0, 4) == [0, 0, 0, 0];
    assert Addresses([]) == [];
  }

  lemma AlwaysInside(cursor: seq<Byte>)
    requires |cursor| == 4
    ensures Contains(0, 0, cursor)
  {
    hide Value, Floor, Pow2;
    SpaceIs();
    SpaceBound(cursor);
    MultipleIsAligned(0, ChunkSize(0));
    FloorIs(0, ChunkSize(0), Value(cursor));
  }

  lemma ChunkStart(answers: Answers, k: nat)
    ensures Aligned(Value(LoopAt(answers, k).cursor), ChunkSize(MIN_SUBNET_MASK_SIZE))
  {
    hide Value, Pow2, LoopAt;
    CursorAt(answers, k);
    ChunkSizeIs();
    MultipleIsAligned(k % CHUNKS, 1024);
  }

  lemma AppendFindings(answers: Answers, k: nat)
    ensures Names(Addresses(LoopAt(answers, k + 1).found))
            == Names(Addresses(LoopAt(answers, k).found))
               + Names(ChunkFree(answers(k / CHUNKS), Value(LoopAt(answers, k).cursor)))
    ensures LoopAt(answers, k + 1).cursor == SubnetIncremented(LoopAt(answers, k).cursor, MIN_SUBNET_MASK_SIZE)
  {
    hide Value, Pow2, SubnetIncremented, ChunkFree, Names;
    var before, vs := LoopAt(answers, k).found, ChunkFree(answers(k / CHUNKS), Value(LoopAt(answers, k).cursor));
    assert Addresses(before + Findings(k / CHUNKS, vs)) == Addresses(before) + vs;
    NamesConcat(Addresses(before), vs);
  }

  // ----- what it has found -----

  /** The iteration that asks about an address on a pass. */
  function Iteration(f: Finding): nat {
    f.pass * CHUNKS + f.address / 1024
  }

  /** Iteration k asks about the addresses of its chunk, and nobody else does. */
  lemma IterationIs(k: nat, f: Finding)
    requires f.address < SPACE
    ensures Iteration(f) == k <==>
            f.pass == k / CHUNKS && 1024 * (k % CHUNKS) <= f.address < 1024 * (k % CHUNKS) + 1024
  {
  }

  lemma ChunkFindings(answers: Answers, k: nat, f: Finding)
    ensures f in Findings(k / CHUNKS, ChunkFree(answers(k / CHUNKS), 1024 * (k % CHUNKS)))
            <==> NotUp(answers, f) && Iteration(f) == k
  {
    hide Up, FreeValues, Pow2;
    var pass, base := k / CHUNKS, 1024 * (k % CHUNKS);
    var vs := ChunkFree(answers(pass), base);
    ChunkSizeIs();
    FreeValuesExact(Up(answers(pass), MIN_SUBNET_MASK_SIZE), base, base + 1024);
    if f.address < SPACE { IterationIs(k, f); }
    if f in Findings(pass, vs) {
      var i :| 0 <= i < |vs| && Findings(pass, vs)[i] == f;
      assert vs[i] in vs;
    }
    if f.address in vs && f.pass == pass {
      var i :| 0 <= i < |vs| && vs[i] == f.address;
      assert Findings(pass, vs)[i] == f;
    }
  }

  lemma ChunkFindingsDistinct(answers: Answers, k: nat)
    ensures Distinct(Findings(k / CHUNKS, ChunkFree(answers(k / CHUNKS), 1024 * (k % CHUNKS))))
    ensures |ChunkFree(answers(k / CHUNKS), 1024 * (k % CHUNKS))| <= 1024
  {
    hide Up, FreeValues, Pow2;
    ChunkSizeIs();
    var base := 1024 * (k % CHUNKS);
    FreeValuesExact(Up(answers(k / CHUNKS), MIN_SUBNET_MASK_SIZE), base, base + 1024);
  }

  /** The loop has found each answer "not up" of the iterations before, once. */
  lemma {:induction false} FoundExact(answers: Answers, k: nat)
    ensures Distinct(LoopAt(answers, k).found)
    ensures forall f :: f in LoopAt(answers, k).found <==> NotUp(answers, f) && Iteration(f) < k
  {
    hide NotUp, Iteration, ChunkFree, Value, Bytes, SubnetIncremented, Findings;
    if k > 0 {
      FoundExact(answers, k - 1);
      CursorAt(answers, k - 1);
      ChunkFindingsDistinct(answers, k - 1);
      var before := LoopAt(answers, k - 1).found;
      var new_ := Findings((k - 1) / CHUNKS, ChunkFree(answers((k - 1) / CHUNKS), 1024 * ((k - 1) % CHUNKS)));
      assert LoopAt(answers, k).found == before + new_;
      forall f
        ensures f in new_ <==> NotUp(answers, f) && Iteration(f) == k - 1
      {
        ChunkFindings(answers, k - 1, f);
      }
      DistinctJoin(before, new_);
    }
  }

  lemma {:induction false} DistinctFits<T>(s: seq<T>, t: seq<T>)
    requires Distinct(s) && forall i | 0 <= i < |s| :: s[i] in t
    ensures |s| <= |t|
  {
    if s != [] {
      var n := |s| - 1;
      var j :| 0 <= j < |t| && t[j] == s[n];
      var rest := t[..j] + t[j + 1..];
      forall i | 0 <= i < n
        ensures s[i] in rest
      {
        var m :| 0 <= m < |t| && t[m] == s[i];
        assert m < j ==> rest[m] == s[i];
        assert m > j ==> rest[m - 1] == s[i];
      }
      DistinctFits(s[..n], rest);
    }
  }

  /** The limit may be overshot by less than one chunk. */
  lemma AnswerBound(answers: Answers, k: nat, free: seq<string>, outcome: Outcome)
    requires StopsWith(answers, k, free, outcome)
    ensures |free| <= 9023
  {
    hide Value, ChunkFree, SubnetIncremented, Bytes, RunOutcome;
    if k > 0 {
      assert !Stops(answers, k - 1);
      CursorAt(answers, k - 1);
      ChunkFindingsDistinct(answers, k - 1);
    }
  }

  // ----- when it stops -----

  ghost predicate AreNotUp(answers: Answers, found: seq<Finding>) {
    forall i | 0 <= i < |found| :: NotUp(answers, found[i])
  }

  ghost predicate ManyNotUp(answers: Answers) {
    exists found :: Distinct(found) && |found| == 8000 && AreNotUp(answers, found)
  }

  ghost predicate SomeRunFails(answers: Answers) {
    exists pass: nat, chunk: nat :: RunFails(answers, pass, chunk)
  }

  /** The scan of 0.0.0.0/0 ends exactly if some nmap run fails or, over all passes together, at least
      8000 times an address is not reported up. */
  lemma WholeSpaceScanStopsIff(answers: Answers)
    ensures (exists k :: Stops(answers, k)) <==> SomeRunFails(answers) || ManyNotUp(answers)
  {
    hide RunFails, Value, LoopAt, NotUp;
    if k :| Stops(answers, k) {
      StopIsCaused(answers, k);
    }
    if pass: nat, chunk: nat :| RunFails(answers, pass, chunk) {
      FailureStops(answers, pass, chunk);
    }
    if found :| Distinct(found) && |found| == 8000 && AreNotUp(answers, found) {
      var k := Latest(found);
      FindingsStop(answers, found, k);
    }
  }

  lemma StopIsCaused(answers: Answers, k: nat)
    requires Stops(answers, k)
    ensures SomeRunFails(answers) || ManyNotUp(answers)
  {
    hide Value, LoopAt, NotUp, RunOutcome;
    CursorAt(answers, k);
    FoundExact(answers, k);
    var found := LoopAt(answers, k).found;
    if |found| >= ADDRESS_LIMIT {
      var first := found[..ADDRESS_LIMIT];
      assert forall i | 0 <= i < |first| :: first[i] in found;
      assert AreNotUp(answers, first);
    } else {
      assert RunFails(answers, k / CHUNKS, k % CHUNKS);
    }
  }

  lemma FailureStops(answers: Answers, pass: nat, chunk: nat)
    requires RunFails(answers, pass, chunk)
    ensures Stops(answers, pass * CHUNKS + chunk)
  {
    hide Value, LoopAt, RunOutcome;
    CursorAt(answers, pass * CHUNKS + chunk);
  }

  /** An iteration after all that asked about these addresses. */
  lemma {:induction false} Latest(found: seq<Finding>) returns (k: nat)
    ensures forall i | 0 <= i < |found| :: Iteration(found[i]) < k
  {
    hide Iteration;
    k := 0;
    if found != [] {
      var n := |found| - 1;
      k := Latest(found[..n]);
      assert forall i | 0 <= i < n :: found[..n][i] == found[i];
      if Iteration(found[n]) >= k { k := Iteration(found[n]) + 1; }
    }
  }

  lemma FindingsStop(answers: Answers, found: seq<Finding>, k: nat)
    requires Distinct(found) && |found| == 8000 && AreNotUp(answers, found)
    requires forall i | 0 <= i < |found| :: Iteration(found[i]) < k
    ensures Stops(answers, k)
  {
    hide LoopAt, NotUp, Iteration, Value;
    FoundExact(answers, k);
    DistinctFits(found, LoopAt(answers, k).found);
  }

  // ----- particular networks -----

  /** nmap gives the same answers on every pass. */
  function Stable(nmap: Nmap): Answers {
    (_: nat) => nmap
  }

  /** One address that is never up is found once on every pass. */
  function EveryPass(address: nat, n: nat): (found: seq<Finding>)
    ensures |found| == n && forall i | 0 <= i < n :: found[i] == Finding(i, address)
  {
    seq(n, i requires 0 <= i < n => Finding(i, address))
  }

  /** In a network that does not change, the scan ends exactly if some address is not reported up (a
      failing run reports none). */
  lemma StableScanStopsIff(nmap: Nmap)
    ensures (exists k :: Stops(Stable(nmap), k))
            <==> (exists v :: 0 <= v < SPACE && !Up(nmap, MIN_SUBNET_MASK_SIZE)(v))
  {
    hide Stops, Up, RunOutcome;
    var answers := Stable(nmap);
    WholeSpaceScanStopsIff(answers);
    if v :| 0 <= v < SPACE && !Up(nmap, MIN_SUBNET_MASK_SIZE)(v) {
      var found := EveryPass(v, ADDRESS_LIMIT);
      assert AreNotUp(answers, found);
      assert Distinct(found);
    }
    if found :| Distinct(found) && |found| == 8000 && AreNotUp(answers, found) {
      assert NotUp(answers, found[0]);
    }
    if pass: nat, chunk: nat :| RunFails(answers, pass, chunk) {
      FailureIsNotUp(nmap, chunk);
    }
  }

  lemma FailureIsNotUp(nmap: Nmap, chunk: nat)
    requires chunk < CHUNKS && !RunOutcome(nmap(1024 * chunk, MIN_SUBNET_MASK_SIZE)).Succeeded?
    ensures !Up(nmap, MIN_SUBNET_MASK_SIZE)(1024 * chunk)
  {
    hide Pow2, Floor, Name, Occupied;
    ChunkSizeIs();
    MultipleIsAligned(chunk, 1024);
  }

  /** An nmap that lists every address of a subnet of 1024 as up. */
  function Everybody(base: nat): NmapRun {
    NmapRun(0, "", Some(seq(1024, i requires 0 <= i < 1024 => Host("up", [Address("ipv4", Name(base + i))]))))
  }

  function Full(): Nmap {
    (base: nat, mask: nat) => Everybody(base)
  }

  /** The same, except that nobody answers in the first chunk. */
  function FirstChunkFree(): Nmap {
    (base: nat, mask: nat) => if base == 0 then NmapRun(0, "", Some([])) else Everybody(base)
  }

  function FreeOnPass(pass: nat): Nmap {
    if pass == 0 then FirstChunkFree() else Full()
  }

  function FreeOnFirstPass(): Answers {
    (pass: nat) => FreeOnPass(pass)
  }

  lemma EverybodyIsUp(base: nat, v: nat)
    requires base <= v < base + 1024
    ensures Name(v) in OccupiedIn(Everybody(base)) && RunOutcome(Everybody(base)).Succeeded?
  {
    hide Name, Occupied;
    var hosts := Everybody(base).hosts.value;
    var h := hosts[v - base];
    assert h.addresses == [Address("ipv4", Name(v))] && FirstIpv4(h.addresses) == Some(Name(v));
    OccupiedExact(hosts, Name(v));
  }

  lemma FullIsUp(v: nat)
    ensures Up(Full(), MIN_SUBNET_MASK_SIZE)(v)
  {
    hide Everybody, Name, OccupiedIn, Floor, Pow2;
    ChunkSizeIs();
    EverybodyIsUp(Floor(v, 1024), v);
  }

  /** On a network where every address is up, the scan goes round for ever. */
  lemma FullNetworkScanNeverStops()
    ensures forall k :: !Stops(Stable(Full()), k)
  {
    hide Stops, Up, Full;
    StableScanStopsIff(Full());
    forall v: nat
      ensures Up(Full(), MIN_SUBNET_MASK_SIZE)(v)
    {
      FullIsUp(v);
    }
  }

  lemma FreeOnFirstPassOnly(f: Finding)
    requires NotUp(FreeOnFirstPass(), f)
    ensures f in Findings(0, Upto(1024))
  {
    hide Everybody, Name, Occupied, Floor, Pow2;
    ChunkSizeIs();
    var base := Floor(f.address, 1024);
    EverybodyIsUp(base, f.address);
    assert f.pass == 0 && base == 0;
    assert Findings(0, Upto(1024))[f.address] == f;
  }

  /** Free addresses on the first pass are not enough: if 1024 addresses are free then and none later,
      the scan goes round for ever, although no run fails. */
  lemma FreeOnceIsNotEnough()
    ensures NotUp(FreeOnFirstPass(), Finding(0, 0))
    ensures forall k :: !Stops(FreeOnFirstPass(), k)
  {
    hide Stops, NotUp, Everybody, Findings;
    var answers := FreeOnFirstPass();
    WholeSpaceScanStopsIff(answers);
    FirstAddressIsFree();
    if found :| Distinct(found) && |found| == 8000 && AreNotUp(answers, found) {
      forall i | 0 <= i < |found|
        ensures found[i] in Findings(0, Upto(1024))
      {
        FreeOnFirstPassOnly(found[i]);
      }
      DistinctFits(found, Findings(0, Upto(1024)));
    }
    forall pass: nat, chunk: nat
      ensures !RunFails(answers, pass, chunk)
    {
      EverybodyIsUp(1024 * chunk, 1024 * chunk);
    }
  }

  lemma FirstAddressIsFree()
    ensures NotUp(FreeOnFirstPass(), Finding(0, 0))
  {
    hide Pow2, Name, Everybody;
    ChunkSizeIs();
    assert Floor(0, 1024) == 0;
    var run := FreeOnFirstPass()(0)(0, MIN_SUBNET_MASK_SIZE);
    assert run == NmapRun(0, "", Some([]));
    assert OccupiedIn(run) == {};
    assert !Up(FreeOnFirstPass()(0), MIN_SUBNET_MASK_SIZE)(0);
  }
}
