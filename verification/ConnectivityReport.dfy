/** The report on one remote host and on all of them: what the checks contribute, how contributions
    are collected and sorted, and how much of the result depends on the schedule.
 */
module ConnectivityReport {
  import opened Common
  import opened StableSort
  import opened Gathering
  import F = FanIn

  datatype L2 = L2(outgoingIp: string, outgoingNic: string, remoteIp: string, remoteMac: string, successful: bool)
  datatype L3 = L3(remoteIp: string, successful: bool, averageRttMs: real, packetLoss: real)
  datatype Mtu = Mtu(remoteIp: string, outgoingNic: string, successful: bool)

  /** The result of a check: arping and nmap report layer-2 entries, ping one layer-3 entry, the MTU
      check one MTU entry. */
  datatype Reporter = L2Result(l2: seq<L2>) | L3Result(l3: L3) | MtuResult(mtu: Mtu)

  datatype HostReport = HostReport(hostId: string, l2: seq<L2>, l3: seq<L3>, mtu: seq<Mtu>)

  function L2Key(e: L2): string { e.remoteIp + e.remoteMac }
  function L3Key(e: L3): string { e.remoteIp }
  function MtuKey(e: Mtu): string { e.remoteIp }
  function HostKey(h: HostReport): string { h.hostId }

  function L2Of(r: Reporter): seq<L2> { if r.L2Result? then r.l2 else [] }
  function L3Of(r: Reporter): seq<L3> { if r.L3Result? then [r.l3] else [] }
  function MtuOf(r: Reporter): seq<Mtu> { if r.MtuResult? then [r.mtu] else [] }

  function Reported(h: HostReport, r: Reporter): HostReport {
    h.(l2 := h.l2 + L2Of(r), l3 := h.l3 + L3Of(r), mtu := h.mtu + MtuOf(r))
  }

  function Finalized(h: HostReport): HostReport {
    h.(l2 := Sort(L2Key, h.l2), l3 := Sort(L3Key, h.l3), mtu := Sort(MtuKey, h.mtu))
  }

  /** The report under construction, as the collector of one host updates it. */
  class ResultingHost {
    var hostId: string
    var l2: seq<L2>
    var l3: seq<L3>
    var mtu: seq<Mtu>

    ghost function Contents(): HostReport
      reads this
    {
      HostReport(hostId, l2, l3, mtu)
    }

    constructor (id: string)
      ensures Contents() == HostReport(id, [], [], [])
    {
      hostId, l2, l3, mtu := id, [], [], [];
    }

    method Report(r: Reporter)
      modifies this
      ensures Contents() == Reported(old(Contents()), r)
    {
      match r
      case L2Result(entries) => l2 := l2 + entries;
      case L3Result(entry) => l3 := l3 + [entry];
      case MtuResult(entry) => mtu := mtu + [entry];
    }

    /** The checkers finish in order: ping sorts layer 3, arping layer 2, nmap nothing, MTU its own. */
    method Finalize()
      modifies this
      ensures Contents() == Finalized(old(Contents()))
    {
      l3 := SortList(l3, L3Key);
      l2 := SortList(l2, L2Key);
      mtu := SortList(mtu, MtuKey);
    }
  }

  // ----- arping -----

  function LowerChar(c: char): char {
    if 'A' <= c <= 'Z' then c - 'A' + 'a' else c
  }

  function Lower(s: string): string {
    if s == [] then [] else [LowerChar(s[0])] + Lower(s[1..])
  }

  /** Upper-case letters become the lower-case letters at the same place of the alphabet, all else stays. */
  lemma {:induction false} LowerIs(s: string)
    ensures |Lower(s)| == |s|
    ensures forall i | 0 <= i < |s| ::
              if 'A' <= s[i] <= 'Z' then Lower(s)[i] as int - 'a' as int == s[i] as int - 'A' as int
              else Lower(s)[i] == s[i]
  {
    if s != [] { LowerIs(s[1..]); }
  }

  lemma LowerTwice(s: string)
    ensures Lower(Lower(s)) == Lower(s)
  {
    hide Lower;
    LowerIs(s);
    LowerIs(Lower(s));
  }

  /** What arping was asked and from which address it asked. */
  datatype Arping = Arping(remoteIp: string, nic: string, outgoingIp: string, remoteMacs: seq<string>)

  predicate KnownMac(mac: string, macs: seq<string>) {
    exists i :: 0 <= i < |macs| && Lower(macs[i]) == Lower(mac)
  }

  function Entry(a: Arping, mac: string): L2 {
    L2(a.outgoingIp, a.nic, a.remoteIp, mac, KnownMac(mac, a.remoteMacs))
  }

  /** One entry per answering MAC address, ignoring case. */
  ghost predicate Deduplicated(a: Arping, replies: seq<string>, values: map<string, L2>) {
    && (forall mac :: mac in values <==> exists i :: 0 <= i < |replies| && Lower(replies[i]) == mac)
    && (forall mac | mac in values :: values[mac] == Entry(a, mac))
  }

  /** `replies` are the MAC addresses of the lines that look like replies. */
  method Deduplicate(a: Arping, replies: seq<string>) returns (values: map<string, L2>)
    ensures Deduplicated(a, replies, values)
  {
    hide KnownMac;
    values := map[];
    for i := 0 to |replies|
      invariant forall mac :: mac in values <==> exists j :: 0 <= j < i && Lower(replies[j]) == mac
      invariant forall mac | mac in values :: values[mac] == Entry(a, mac)
    {
      var mac := Lower(replies[i]);
      values := values[mac := Entry(a, mac)];
    }
  }

  /** The values of a map, listed in some order. */
  ghost predicate Emission(values: map<string, L2>, entries: seq<L2>) {
    && Distinct(entries)
    && forall e :: e in entries <==> e.remoteMac in values && values[e.remoteMac] == e
  }

  /** Go's order of iteration over a map is arbitrary: any remaining key may be next. */
  method Emit(a: Arping, values: map<string, L2>) returns (entries: seq<L2>)
    requires forall mac | mac in values :: values[mac] == Entry(a, mac)
    ensures Emission(values, entries)
  {
    hide KnownMac;
    entries := [];
    var keys := values.Keys;
    while keys != {}
      invariant keys <= values.Keys
      invariant Distinct(entries)
      invariant forall e :: e in entries <==>
                  e.remoteMac in values && e.remoteMac !in keys && values[e.remoteMac] == e
      decreases keys
    {
      var k :| k in keys;
      entries := entries + [values[k]];
      keys := keys - {k};
    }
  }

  /** However the map is iterated, arping reports the same entries, and no two with the same sort key. */
  lemma EmissionsAlike(a: Arping, values: map<string, L2>, entries: seq<L2>, entries': seq<L2>)
    requires forall mac | mac in values :: values[mac] == Entry(a, mac)
    requires Emission(values, entries) && Emission(values, entries')
    ensures multiset(entries) == multiset(entries')
    ensures OwnKeysDistinct(L2Key, entries)
  {
    hide KnownMac;
    DistinctAlike(entries, entries');
    forall i, j | 0 <= i < j < |entries|
      ensures L2Key(entries[i]) != L2Key(entries[j])
    {
      var x, y := entries[i], entries[j];
      assert x in entries && y in entries;
      assert x.remoteIp == a.remoteIp == y.remoteIp;
      var n := |a.remoteIp|;
      assert L2Key(x)[n..] == x.remoteMac && L2Key(y)[n..] == y.remoteMac;
    }
  }

  // ----- one host -----

  type Outcomes = seq<Option<Reporter>>

  /** The fan-in of one host: a channel of ten, collected until closed. */
  function HostConfig(outcomes: Outcomes): (c: F.Config)
    ensures |c.sends| == |outcomes|
    ensures forall i | 0 <= i < |outcomes| :: c.sends[i] == outcomes[i].Some?
  {
    F.Config(seq(|outcomes|, i requires 0 <= i < |outcomes| => outcomes[i].Some?), 10, F.UntilClosed)
  }

  function L2Parts(outcomes: Outcomes): (parts: seq<seq<L2>>)
    ensures |parts| == |outcomes|
    ensures forall i | 0 <= i < |outcomes| :: parts[i] == if outcomes[i].Some? then L2Of(outcomes[i].value) else []
  {
    seq(|outcomes|, i requires 0 <= i < |outcomes| => if outcomes[i].Some? then L2Of(outcomes[i].value) else [])
  }

  function L3Parts(outcomes: Outcomes): (parts: seq<seq<L3>>)
    ensures |parts| == |outcomes|
    ensures forall i | 0 <= i < |outcomes| :: parts[i] == if outcomes[i].Some? then L3Of(outcomes[i].value) else []
  {
    seq(|outcomes|, i requires 0 <= i < |outcomes| => if outcomes[i].Some? then L3Of(outcomes[i].value) else [])
  }

  function MtuParts(outcomes: Outcomes): (parts: seq<seq<Mtu>>)
    ensures |parts| == |outcomes|
    ensures forall i | 0 <= i < |outcomes| :: parts[i] == if outcomes[i].Some? then MtuOf(outcomes[i].value) else []
  {
    seq(|outcomes|, i requires 0 <= i < |outcomes| => if outcomes[i].Some? then MtuOf(outcomes[i].value) else [])
  }

  ghost predicate Deliverable(outcomes: Outcomes, order: seq<nat>) {
    forall k | 0 <= k < |order| :: order[k] < |outcomes| && outcomes[order[k]].Some?
  }

  /** The collector's loop over the results that arrive. */
  ghost function Collected(id: string, outcomes: Outcomes, order: seq<nat>): HostReport
    requires Deliverable(outcomes, order)
  {
    if order == [] then HostReport(id, [], [], [])
    else
      var n := |order| - 1;
      Reported(Collected(id, outcomes, order[..n]), outcomes[order[n]].value)
  }

  method ProcessArrivals(id: string, outcomes: Outcomes, order: seq<nat>) returns (host: ResultingHost)
    requires Deliverable(outcomes, order)
    ensures fresh(host) && host.Contents() == Finalized(Collected(id, outcomes, order))
  {
    host := new ResultingHost(id);
    for k := 0 to |order|
      invariant fresh(host) && host.Contents() == Collected(id, outcomes, order[..k])
    {
      assert order[..k + 1][..k] == order[..k];
      host.Report(outcomes[order[k]].value);
    }
    assert order[..|order|] == order;
    host.Finalize();
  }

  ghost function ReportOf(id: string, outcomes: Outcomes, order: seq<nat>): HostReport
    requires InRange(L2Parts(outcomes), order)
  {
    HostReport(id, SortedGather(L2Key, L2Parts(outcomes), order),
               SortedGather(L3Key, L3Parts(outcomes), order),
               SortedGather(MtuKey, MtuParts(outcomes), order))
  }

  lemma {:induction false} CollectedIs(id: string, outcomes: Outcomes, order: seq<nat>)
    requires Deliverable(outcomes, order)
    ensures InRange(L2Parts(outcomes), order)
    ensures Collected(id, outcomes, order)
         == HostReport(id, Gather(L2Parts(outcomes), order), Gather(L3Parts(outcomes), order),
                       Gather(MtuParts(outcomes), order))
  {
    hide L2Of, L3Of, MtuOf, L2Parts, L3Parts, MtuParts;
    if order != [] {
      CollectedIs(id, outcomes, order[..|order| - 1]);
    }
  }

  lemma OrderingDeliverable(outcomes: Outcomes, order: seq<nat>)
    requires F.IsOrdering(HostConfig(outcomes), order)
    ensures Deliverable(outcomes, order)
  {
    forall k | 0 <= k < |order|
      ensures order[k] < |outcomes| && outcomes[order[k]].Some?
    {
      assert order[k] in order;
    }
  }

  /** The host under construction, as the collector has it in a state of the fan-in. */
  ghost function HostAt(id: string, outcomes: Outcomes, t: F.State): HostReport
    requires Deliverable(outcomes, t.received)
  {
    if t.finished then Finalized(Collected(id, outcomes, t.received)) else Collected(id, outcomes, t.received)
  }

  lemma ReceivedDeliverable(outcomes: Outcomes, t: F.State)
    requires F.Inv(HostConfig(outcomes), t)
    ensures Deliverable(outcomes, t.received + t.channel) && Deliverable(outcomes, t.received)
  {
    var d := t.received + t.channel;
    forall k | 0 <= k < |d|
      ensures d[k] < |outcomes| && outcomes[d[k]].Some?
    {
      assert d[k] in d;
      assert F.HasSent(HostConfig(outcomes), t, d[k]);
    }
    forall k | 0 <= k < |t.received|
      ensures t.received[k] < |outcomes| && outcomes[t.received[k]].Some?
    {
      assert d[k] == t.received[k];
    }
  }

  /** In every run the host changes only when a result is received, which reports it, and when the
      collection finishes, which finalizes the host; after that it changes no more. */
  lemma HostSteps(id: string, outcomes: Outcomes, steps: seq<F.Step>, s: F.State, step: F.Step)
    requires F.Reaches(HostConfig(outcomes), steps, s) && F.Enabled(HostConfig(outcomes), s, step)
    ensures var t := F.Apply(HostConfig(outcomes), s, step);
            && Deliverable(outcomes, s.received) && Deliverable(outcomes, t.received)
            && (step.Receive? ==> Deliverable(outcomes, s.received + s.channel))
            && HostAt(id, outcomes, t) == (match step
                 case Receive => Reported(HostAt(id, outcomes, s), outcomes[s.channel[0]].value)
                 case Finish => Finalized(HostAt(id, outcomes, s))
                 case _ => HostAt(id, outcomes, s))
            && (step.Receive? || step.Finish? ==> !s.finished)
  {
    var c := HostConfig(outcomes);
    var t := F.Apply(c, s, step);
    hide F.Inv, F.Reaches, Finalized, Reported, HostConfig;
    F.RunsAreSafe(c, steps, s);
    F.InvKept(c, s, step);
    ReceivedDeliverable(outcomes, s);
    ReceivedDeliverable(outcomes, t);
    if step.Receive? {
      var d := s.received + s.channel;
      assert d[|s.received|] == s.channel[0];
      assert t.received[..|t.received| - 1] == s.received;
    }
  }

  /** A schedule of the fan-in of one host that has come to its end, with the report it leaves. */
  ghost predicate Finishes(id: string, outcomes: Outcomes, steps: seq<F.Step>, t: F.State, report: HostReport) {
    && F.Reaches(HostConfig(outcomes), steps, t) && t.finished
    && Deliverable(outcomes, t.received)
    && report == Finalized(Collected(id, outcomes, t.received))
  }

  /** For every schedule: no panic, no deadlock, at most 5n + 3 steps; and when the collection has
      finished, the reported results are each non-empty result exactly once. */
  lemma ProcessHostSafe(outcomes: Outcomes, steps: seq<F.Step>, t: F.State)
    requires F.Reaches(HostConfig(outcomes), steps, t)
    ensures !t.panicked && |steps| <= 5 * |outcomes| + 3
    ensures F.Stuck(HostConfig(outcomes), t) ==> t.finished
    ensures t.finished ==>
              && Distinct(t.received)
              && forall i :: i in t.received <==> 0 <= i < |outcomes| && outcomes[i].Some?
  {
    var c := HostConfig(outcomes);
    F.RunsAreSafe(c, steps, t);
    F.EveryScheduleFinishes(c, steps, t);
  }

  lemma FinishedReport(id: string, outcomes: Outcomes, steps: seq<F.Step>, t: F.State, report: HostReport)
    requires Finishes(id, outcomes, steps, t, report)
    ensures F.IsOrdering(HostConfig(outcomes), t.received)
    ensures InRange(L2Parts(outcomes), t.received) && report == ReportOf(id, outcomes, t.received)
  {
    F.RunsAreSafe(HostConfig(outcomes), steps, t);
    CollectedIs(id, outcomes, t.received);
  }

  /** Two lists of results hold the same entries, in whatever order and by whatever checks. */
  ghost predicate SameEntries(outcomes: Outcomes, outcomes': Outcomes) {
    && multiset(Flat(L2Parts(outcomes))) == multiset(Flat(L2Parts(outcomes')))
    && multiset(Flat(L3Parts(outcomes))) == multiset(Flat(L3Parts(outcomes')))
    && multiset(Flat(MtuParts(outcomes))) == multiset(Flat(MtuParts(outcomes')))
  }

  /** The report of a host holds the entries of all its results. */
  lemma ReportEntries(id: string, outcomes: Outcomes, steps: seq<F.Step>, t: F.State, report: HostReport)
    requires Finishes(id, outcomes, steps, t, report)
    ensures report.hostId == id
    ensures multiset(report.l2) == multiset(Flat(L2Parts(outcomes)))
    ensures multiset(report.l3) == multiset(Flat(L3Parts(outcomes)))
    ensures multiset(report.mtu) == multiset(Flat(MtuParts(outcomes)))
  {
    hide Flat, Gather, Sort, WithKey, Finishes, L2Parts, L3Parts, MtuParts, HostConfig;
    FinishedReport(id, outcomes, steps, t, report);
    var c := HostConfig(outcomes);
    GatherIsFlat(c, L2Parts(outcomes), t.received);
    GatherIsFlat(c, L3Parts(outcomes), t.received);
    GatherIsFlat(c, MtuParts(outcomes), t.received);
    SortCorrect(L2Key, Gather(L2Parts(outcomes), t.received), []);
    SortCorrect(L3Key, Gather(L3Parts(outcomes), t.received), []);
    SortCorrect(MtuKey, Gather(MtuParts(outcomes), t.received), []);
  }

  // ----- what the report holds, entry by entry -----

  /** How many results are this layer-3 entry. */
  function CountL3(outcomes: Outcomes, e: L3): nat {
    if outcomes == [] then 0
    else CountL3(outcomes[..|outcomes| - 1], e) + if outcomes[|outcomes| - 1] == Some(L3Result(e)) then 1 else 0
  }

  /** How many results are this MTU entry. */
  function CountMtu(outcomes: Outcomes, e: Mtu): nat {
    if outcomes == [] then 0
    else CountMtu(outcomes[..|outcomes| - 1], e) + if outcomes[|outcomes| - 1] == Some(MtuResult(e)) then 1 else 0
  }

  /** How often the results list this layer-2 entry. */
  function CountL2(outcomes: Outcomes, e: L2): nat {
    if outcomes == [] then 0
    else
      var last := outcomes[|outcomes| - 1];
      CountL2(outcomes[..|outcomes| - 1], e)
      + if last.Some? && last.value.L2Result? then multiset(last.value.l2)[e] else 0
  }

  lemma FlatNothing<T>(parts: seq<seq<T>>)
    requires parts == []
    ensures Flat(parts) == []
  {
  }

  lemma FlatStep<T>(parts: seq<seq<T>>, x: T)
    requires parts != []
    ensures multiset(Flat(parts))[x] == multiset(Flat(parts[..|parts| - 1]))[x] + multiset(parts[|parts| - 1])[x]
  {
  }

  lemma {:induction false} FlatL2Counts(outcomes: Outcomes, e: L2)
    ensures multiset(Flat(L2Parts(outcomes)))[e] == CountL2(outcomes, e)
  {
    hide Flat;
    if outcomes == [] {
      FlatNothing(L2Parts(outcomes));
    } else {
      var n := |outcomes| - 1;
      FlatL2Counts(outcomes[..n], e);
      assert L2Parts(outcomes)[..n] == L2Parts(outcomes[..n]);
      FlatStep(L2Parts(outcomes), e);
    }
  }

  lemma {:induction false} FlatL3Counts(outcomes: Outcomes, e: L3)
    ensures multiset(Flat(L3Parts(outcomes)))[e] == CountL3(outcomes, e)
  {
    hide Flat;
    if outcomes == [] {
      FlatNothing(L3Parts(outcomes));
    } else {
      var n := |outcomes| - 1;
      FlatL3Counts(outcomes[..n], e);
      assert L3Parts(outcomes)[..n] == L3Parts(outcomes[..n]);
      FlatStep(L3Parts(outcomes), e);
    }
  }

  lemma {:induction false} FlatMtuCounts(outcomes: Outcomes, e: Mtu)
    ensures multiset(Flat(MtuParts(outcomes)))[e] == CountMtu(outcomes, e)
  {
    hide Flat;
    if outcomes == [] {
      FlatNothing(MtuParts(outcomes));
    } else {
      var n := |outcomes| - 1;
      FlatMtuCounts(outcomes[..n], e);
      assert MtuParts(outcomes)[..n] == MtuParts(outcomes[..n]);
      FlatStep(MtuParts(outcomes), e);
    }
  }

  /** In every finished run the report of a host has each entry as often as the results have it. */
  lemma ReportCounts(id: string, outcomes: Outcomes, steps: seq<F.Step>, t: F.State, report: HostReport)
    requires Finishes(id, outcomes, steps, t, report)
    ensures report.hostId == id
    ensures forall e :: multiset(report.l2)[e] == CountL2(outcomes, e)
    ensures forall e :: multiset(report.l3)[e] == CountL3(outcomes, e)
    ensures forall e :: multiset(report.mtu)[e] == CountMtu(outcomes, e)
  {
    hide Flat, Finishes, L2Parts, L3Parts, MtuParts, CountL2, CountL3, CountMtu;
    ReportEntries(id, outcomes, steps, t, report);
    forall e
      ensures multiset(report.l2)[e] == CountL2(outcomes, e)
    {
      FlatL2Counts(outcomes, e);
    }
    forall e
      ensures multiset(report.l3)[e] == CountL3(outcomes, e)
    {
      FlatL3Counts(outcomes, e);
    }
    forall e
      ensures multiset(report.mtu)[e] == CountMtu(outcomes, e)
    {
      FlatMtuCounts(outcomes, e);
    }
  }

  /** Its lists are sorted: layer 2 by address and MAC, layer 3 and MTU by address. */
  lemma ReportSorted(id: string, outcomes: Outcomes, steps: seq<F.Step>, t: F.State, report: HostReport)
    requires Finishes(id, outcomes, steps, t, report)
    ensures forall i, j | 0 <= i < j < |report.l2| ::
              Leq(report.l2[i].remoteIp + report.l2[i].remoteMac, report.l2[j].remoteIp + report.l2[j].remoteMac)
    ensures forall i, j | 0 <= i < j < |report.l3| :: Leq(report.l3[i].remoteIp, report.l3[j].remoteIp)
    ensures forall i, j | 0 <= i < j < |report.mtu| :: Leq(report.mtu[i].remoteIp, report.mtu[j].remoteIp)
  {
    hide Gather, Sort, WithKey, Finishes, L2Parts, L3Parts, MtuParts, HostConfig, Leq;
    FinishedReport(id, outcomes, steps, t, report);
    SortedByKey(L2Key, Gather(L2Parts(outcomes), t.received));
    SortedByKey(L3Key, Gather(L3Parts(outcomes), t.received));
    SortedByKey(MtuKey, Gather(MtuParts(outcomes), t.received));
  }

  lemma SortedByKey<T>(key: T -> string, s: seq<T>)
    ensures forall i, j | 0 <= i < j < |Sort(key, s)| :: Leq(key(Sort(key, s)[i]), key(Sort(key, s)[j]))
  {
    hide Sort, WithKey, Leq;
    SortCorrect(key, s, []);
    var keys := Keys(key, Sort(key, s));
    forall i, j | 0 <= i < j < |Sort(key, s)|
      ensures Leq(key(Sort(key, s)[i]), key(Sort(key, s)[j]))
    {
      assert Leq(keys[i], keys[j]);
    }
  }

  lemma {:induction false} CountsMean(outcomes: Outcomes, e: L2, f: L3, g: Mtu)
    ensures CountL3(outcomes, f) > 0 <==> exists i :: 0 <= i < |outcomes| && outcomes[i] == Some(L3Result(f))
    ensures CountMtu(outcomes, g) > 0 <==> exists i :: 0 <= i < |outcomes| && outcomes[i] == Some(MtuResult(g))
    ensures CountL2(outcomes, e) > 0 <==> exists i :: 0 <= i < |outcomes| && ListsL2(outcomes[i], e)
  {
    if outcomes != [] {
      var n := |outcomes| - 1;
      CountsMean(outcomes[..n], e, f, g);
      assert outcomes == outcomes[..n] + [outcomes[n]];
    }
  }

  ghost predicate ListsL2(outcome: Option<Reporter>, e: L2) {
    outcome.Some? && outcome.value.L2Result? && e in outcome.value.l2
  }

  /** An entry is in the report exactly if some result is it, or lists it. */
  lemma ReportHolds(id: string, outcomes: Outcomes, steps: seq<F.Step>, t: F.State, report: HostReport,
                    e: L2, f: L3, g: Mtu)
    requires Finishes(id, outcomes, steps, t, report)
    ensures e in report.l2 <==> exists i :: 0 <= i < |outcomes| && ListsL2(outcomes[i], e)
    ensures f in report.l3 <==> exists i :: 0 <= i < |outcomes| && outcomes[i] == Some(L3Result(f))
    ensures g in report.mtu <==> exists i :: 0 <= i < |outcomes| && outcomes[i] == Some(MtuResult(g))
  {
    hide Finishes, CountL2, CountL3, CountMtu, ListsL2;
    ReportCounts(id, outcomes, steps, t, report);
    CountsMean(outcomes, e, f, g);
    assert e in report.l2 <==> multiset(report.l2)[e] > 0;
    assert f in report.l3 <==> multiset(report.l3)[f] > 0;
    assert g in report.mtu <==> multiset(report.mtu)[g] > 0;
  }

  /** Without ties, the entries of the results determine the report. */
  lemma EntriesDecide(id: string, outcomes: Outcomes, outcomes': Outcomes,
                      steps: seq<F.Step>, t: F.State, r: HostReport,
                      steps': seq<F.Step>, t': F.State, r': HostReport)
    requires Finishes(id, outcomes, steps, t, r) && Finishes(id, outcomes', steps', t', r')
    requires NoTiesIn(outcomes) && SameEntries(outcomes, outcomes')
    ensures r == r'
  {
    hide Flat, Finishes, L2Parts, L3Parts, MtuParts, HostConfig, NoTies, SortedGather, F.IsOrdering, L2Of, L3Of, MtuOf;
    FinishedReport(id, outcomes, steps, t, r);
    FinishedReport(id, outcomes', steps', t', r');
    var c, c' := HostConfig(outcomes), HostConfig(outcomes');
    FlatDecides(L2Key, c, L2Parts(outcomes), t.received, c', L2Parts(outcomes'), t'.received);
    FlatDecides(L3Key, c, L3Parts(outcomes), t.received, c', L3Parts(outcomes'), t'.received);
    FlatDecides(MtuKey, c, MtuParts(outcomes), t.received, c', MtuParts(outcomes'), t'.received);
  }

  lemma FlatDecides<T>(key: T -> string, c: F.Config, parts: seq<seq<T>>, order: seq<nat>,
                       c': F.Config, parts': seq<seq<T>>, order': seq<nat>)
    requires |parts| == |c.sends| && F.IsOrdering(c, order) && |parts'| == |c'.sends| && F.IsOrdering(c', order')
    requires forall i | 0 <= i < |parts| && !c.sends[i] :: parts[i] == []
    requires forall i | 0 <= i < |parts'| && !c'.sends[i] :: parts'[i] == []
    requires NoTies(c, key, parts) && multiset(Flat(parts)) == multiset(Flat(parts'))
    ensures InRange(parts, order) && InRange(parts', order')
    ensures SortedGather(key, parts, order) == SortedGather(key, parts', order')
  {
    hide Flat, Gather, Sort, F.IsOrdering, NoTies;
    GatherIsFlat(c, parts, order);
    GatherIsFlat(c', parts', order');
    GatherTieFree(c, key, parts, order);
    SortedAlike(key, Gather(parts, order), Gather(parts', order'));
  }

  /** The same checks with the same results, where arping may list its entries in another order. */
  ghost predicate SameOutcomes(outcomes: Outcomes, outcomes': Outcomes) {
    && |outcomes| == |outcomes'|
    && forall i | 0 <= i < |outcomes| :: SameOutcome(outcomes[i], outcomes'[i])
  }

  ghost predicate SameOutcome(o: Option<Reporter>, o': Option<Reporter>) {
    match (o, o')
    case (Some(L2Result(e)), Some(L2Result(e'))) => multiset(e) == multiset(e')
    case _ => o == o'
  }

  ghost predicate SameReportUpToTies(r: HostReport, r': HostReport) {
    && r.hostId == r'.hostId
    && SameUpToTies(L2Key, r.l2, r'.l2)
    && SameUpToTies(L3Key, r.l3, r'.l3)
    && SameUpToTies(MtuKey, r.mtu, r'.mtu)
  }

  /** No two results contain different entries with the same sort key. */
  ghost predicate NoTiesIn(outcomes: Outcomes) {
    var c := HostConfig(outcomes);
    && NoTies(c, L2Key, L2Parts(outcomes))
    && NoTies(c, L3Key, L3Parts(outcomes))
    && NoTies(c, MtuKey, MtuParts(outcomes))
  }

  lemma PartsAlike(outcomes: Outcomes, outcomes': Outcomes)
    requires SameOutcomes(outcomes, outcomes')
    ensures SameParts(L2Parts(outcomes), L2Parts(outcomes'))
    ensures SameParts(L3Parts(outcomes), L3Parts(outcomes'))
    ensures SameParts(MtuParts(outcomes), MtuParts(outcomes'))
    ensures HostConfig(outcomes) == HostConfig(outcomes')
  {
    forall i | 0 <= i < |outcomes|
      ensures multiset(L2Parts(outcomes)[i]) == multiset(L2Parts(outcomes')[i])
      ensures multiset(L3Parts(outcomes)[i]) == multiset(L3Parts(outcomes')[i])
      ensures multiset(MtuParts(outcomes)[i]) == multiset(MtuParts(outcomes')[i])
      ensures outcomes[i].Some? == outcomes'[i].Some?
    {
      assert SameOutcome(outcomes[i], outcomes'[i]);
    }
    assert HostConfig(outcomes).sends == HostConfig(outcomes').sends;
  }

  /** Any two schedules report the same host up to entries with equal sort keys, and identically
      when there are no ties. */
  lemma HostReportsAgree(id: string, outcomes: Outcomes, outcomes': Outcomes,
                         steps: seq<F.Step>, t: F.State, r: HostReport,
                         steps': seq<F.Step>, t': F.State, r': HostReport)
    requires SameOutcomes(outcomes, outcomes')
    requires Finishes(id, outcomes, steps, t, r) && Finishes(id, outcomes', steps', t', r')
    ensures SameReportUpToTies(r, r')
    ensures NoTiesIn(outcomes) ==> r == r'
  {
    PartsAlike(outcomes, outcomes');
    FinishedReport(id, outcomes, steps, t, r);
    FinishedReport(id, outcomes', steps', t', r');
    var c := HostConfig(outcomes);
    SchedulesAgree(c, L2Key, L2Parts(outcomes), L2Parts(outcomes'), t.received, t'.received);
    SchedulesAgree(c, L3Key, L3Parts(outcomes), L3Parts(outcomes'), t.received, t'.received);
    SchedulesAgree(c, MtuKey, MtuParts(outcomes), MtuParts(outcomes'), t.received, t'.received);
  }

  /** Every schedule leaves the same report. */
  ghost predicate ReportDetermined(id: string, outcomes: Outcomes) {
    forall steps, t, r, steps', t', r' | Finishes(id, outcomes, steps, t, r)
      && Finishes(id, outcomes, steps', t', r') ::
      r == r'
  }

  /** Every result lists entries with different keys, as all checkers do. */
  ghost predicate WellFormed(outcomes: Outcomes) {
    forall i | 0 <= i < |outcomes| && outcomes[i].Some? :: OwnKeysDistinct(L2Key, L2Of(outcomes[i].value))
  }

  lemma ScheduleFor(id: string, outcomes: Outcomes, order: seq<nat>)
    returns (steps: seq<F.Step>, t: F.State, r: HostReport)
    requires F.IsOrdering(HostConfig(outcomes), order)
    ensures Finishes(id, outcomes, steps, t, r) && t.received == order
    ensures InRange(L2Parts(outcomes), order) && r == ReportOf(id, outcomes, order)
  {
    var c := HostConfig(outcomes);
    F.ArrivalOrders(c, order);
    steps, t :| F.Reaches(c, steps, t) && t.finished && t.received == order;
    OrderingDeliverable(outcomes, order);
    r := Finalized(Collected(id, outcomes, t.received));
    FinishedReport(id, outcomes, steps, t, r);
  }

  /** The report of a host does not depend on the schedule exactly when there are no ties. */
  lemma ReportDeterminedIff(id: string, outcomes: Outcomes)
    requires WellFormed(outcomes)
    ensures ReportDetermined(id, outcomes) <==> NoTiesIn(outcomes)
  {
    hide Finishes, SortedGather, HostConfig, L2Parts, L3Parts, MtuParts;
    var c := HostConfig(outcomes);
    if NoTiesIn(outcomes) {
      forall steps, t, r, steps', t', r' | Finishes(id, outcomes, steps, t, r) && Finishes(id, outcomes, steps', t', r')
        ensures r == r'
      {
        HostReportsAgree(id, outcomes, outcomes, steps, t, r, steps', t', r');
      }
    }
    if ReportDetermined(id, outcomes) {
      forall order, order' | F.IsOrdering(c, order) && F.IsOrdering(c, order')
        ensures SameSorted(c, L2Key, L2Parts(outcomes), order, order')
        ensures SameSorted(c, L3Key, L3Parts(outcomes), order, order')
        ensures SameSorted(c, MtuKey, MtuParts(outcomes), order, order')
      {
        var steps, t, r := ScheduleFor(id, outcomes, order);
        var steps', t', r' := ScheduleFor(id, outcomes, order');
        assert r == r';
      }
      DeterminedIff(c, L2Key, L2Parts(outcomes));
      DeterminedIff(c, L3Key, L3Parts(outcomes));
      DeterminedIff(c, MtuKey, MtuParts(outcomes));
    }
  }

  // ----- all hosts -----

  /** The fan-in over hosts: every host sends one report into a channel with room for all. */
  function RunConfig(hosts: nat): (c: F.Config)
    ensures |c.sends| == hosts && forall i | 0 <= i < hosts :: c.sends[i]
  {
    F.Config(seq(hosts, _ => true), hosts, F.Counted)
  }

  ghost function Singles(reports: seq<HostReport>): (parts: seq<seq<HostReport>>)
    ensures |parts| == |reports| && forall i | 0 <= i < |reports| :: parts[i] == [reports[i]]
  {
    seq(|reports|, i requires 0 <= i < |reports| => [reports[i]])
  }

  /** A finished run over all hosts, with the list it returns. */
  ghost predicate RunReturns(reports: seq<HostReport>, steps: seq<F.Step>, t: F.State, remote: seq<HostReport>) {
    && F.Reaches(RunConfig(|reports|), steps, t) && t.finished
    && InRange(Singles(reports), t.received)
    && remote == SortedGather(HostKey, Singles(reports), t.received)
  }

  lemma RunNeverBlocks(hosts: nat)
    ensures F.NeverBlocks(RunConfig(hosts))
  {
    var c := RunConfig(hosts);
    assert F.Drains(c);
    F.ConcurrentDrainNeverBlocks(c);
  }

  ghost function IdsOf(reports: seq<HostReport>): (ids: seq<string>)
    ensures |ids| == |reports| && forall i | 0 <= i < |reports| :: ids[i] == reports[i].hostId
  {
    seq(|reports|, i requires 0 <= i < |reports| => reports[i].hostId)
  }

  /** The sort key of a host by its number. */
  function IdKey(ids: seq<string>): nat -> string {
    (i: nat) => if i < |ids| then ids[i] else ""
  }

  lemma {:induction false} GatherAt(reports: seq<HostReport>, order: seq<nat>)
    requires InRange(Singles(reports), order)
    ensures InRange(reports, order) && Gather(Singles(reports), order) == At(reports, order)
  {
    hide Singles;
    if order != [] {
      var n := |order| - 1;
      GatherAt(reports, order[..n]);
      assert At(reports, order) == At(reports, order[..n]) + [reports[order[n]]];
    }
  }

  lemma AtConcat(reports: seq<HostReport>, a: seq<nat>, b: seq<nat>)
    requires InRange(reports, a) && InRange(reports, b)
    ensures InRange(reports, a + b) && At(reports, a + b) == At(reports, a) + At(reports, b)
  {
  }

  lemma {:induction false} InsertAt(reports: seq<HostReport>, order: seq<nat>, x: nat)
    requires InRange(reports, order) && x < |reports|
    ensures InRange(reports, Insert(IdKey(IdsOf(reports)), order, x))
    ensures Insert(HostKey, At(reports, order), reports[x]) == At(reports, Insert(IdKey(IdsOf(reports)), order, x))
  {
    hide Leq;
    var key, n := IdKey(IdsOf(reports)), |order| - 1;
    if order == [] || Leq(key(order[n]), key(x)) {
      AtConcat(reports, order, [x]);
    } else {
      InsertAt(reports, order[..n], x);
      assert At(reports, order)[..n] == At(reports, order[..n]);
      AtConcat(reports, Insert(key, order[..n], x), [order[n]]);
    }
  }

  /** Sorting reports by identifier is sorting the numbers of the hosts. */
  lemma {:induction false} SortAt(reports: seq<HostReport>, order: seq<nat>)
    requires InRange(reports, order)
    ensures InRange(reports, Sort(IdKey(IdsOf(reports)), order))
    ensures Sort(HostKey, At(reports, order)) == At(reports, Sort(IdKey(IdsOf(reports)), order))
  {
    hide Insert, IdKey;
    if order == [] {
      assert At(reports, order) == [];
    } else {
      var n := |order| - 1;
      SortAt(reports, order[..n]);
      assert At(reports, order)[..n] == At(reports, order[..n]);
      InsertAt(reports, Sort(IdKey(IdsOf(reports)), order[..n]), order[n]);
    }
  }

  /** A run lists the hosts in the order of their identifiers; hosts with one identifier stay in the
      order of their arrival. */
  lemma RunOrder(reports: seq<HostReport>, steps: seq<F.Step>, t: F.State, remote: seq<HostReport>)
    requires RunReturns(reports, steps, t, remote)
    ensures F.IsOrdering(RunConfig(|reports|), t.received)
    ensures var order := Sort(IdKey(IdsOf(reports)), t.received);
            InRange(reports, order) && remote == At(reports, order)
  {
    hide Sort, IdKey, F.Inv;
    F.RunsAreSafe(RunConfig(|reports|), steps, t);
    GatherAt(reports, t.received);
    SortAt(reports, t.received);
  }

  /** Any two runs over hosts with the same identifiers list them in orders that differ in ties only,
      and in the same order if the identifiers are distinct. */
  lemma RunsAgree(reports: seq<HostReport>, reports': seq<HostReport>,
                  steps: seq<F.Step>, t: F.State, remote: seq<HostReport>,
                  steps': seq<F.Step>, t': F.State, remote': seq<HostReport>)
    returns (order: seq<nat>, order': seq<nat>)
    requires IdsOf(reports) == IdsOf(reports')
    requires RunReturns(reports, steps, t, remote) && RunReturns(reports', steps', t', remote')
    ensures F.IsOrdering(RunConfig(|reports|), order) && InRange(reports, order) && remote == At(reports, order)
    ensures InRange(reports', order') && remote' == At(reports', order')
    ensures SameUpToTies(IdKey(IdsOf(reports)), order, order')
    ensures Distinct(IdsOf(reports)) ==> order == order'
  {
    hide RunReturns, Sort, IdKey, SameUpToTies, TieFree;
    var key, c := IdKey(IdsOf(reports)), RunConfig(|reports|);
    assert |reports| == |IdsOf(reports)| == |reports'|;
    RunOrder(reports, steps, t, remote);
    RunOrder(reports', steps', t', remote');
    order, order' := Sort(key, t.received), Sort(key, t'.received);
    DistinctAlike(t.received, t'.received);
    SortedAlike(key, t.received, t'.received);
    SortedOrdering(c, key, t.received);
    if Distinct(IdsOf(reports)) { NumbersTieFree(IdsOf(reports), c, t.received); }
  }

  lemma SortedOrdering(c: F.Config, key: nat -> string, order: seq<nat>)
    requires F.IsOrdering(c, order)
    ensures F.IsOrdering(c, Sort(key, order))
  {
    hide WithKey, Keys, Leq, F.Senders;
    SortCorrect(key, order, []);
    var sorted := Sort(key, order);
    forall i: nat
      ensures i in sorted <==> i in order
    {
      assert i in multiset(sorted) <==> i in multiset(order);
    }
    forall i, j | 0 <= i < j < |sorted|
      ensures sorted[i] != sorted[j]
    {
      DistinctMultiset(order, sorted[i]);
      if sorted[i] == sorted[j] { Twice(sorted, i, j); }
    }
  }

  lemma Twice<T>(s: seq<T>, i: nat, j: nat)
    requires i < j < |s| && s[i] == s[j]
    ensures multiset(s)[s[i]] >= 2
  {
    assert s == s[..i] + [s[i]] + s[i + 1..j] + [s[j]] + s[j + 1..];
  }

  lemma NumbersTieFree(ids: seq<string>, c: F.Config, order: seq<nat>)
    requires Distinct(ids) && |c.sends| == |ids| && F.IsOrdering(c, order)
    ensures TieFree(IdKey(ids), order)
  {
    forall i, j | 0 <= i < |order| && 0 <= j < |order| && IdKey(ids)(order[i]) == IdKey(ids)(order[j])
      ensures order[i] == order[j]
    {
      assert order[i] in F.Senders(c) && order[j] in F.Senders(c);
    }
  }

  /** Any two runs list the hosts under the same identifiers in the same places. */
  lemma RunKeysAgree(reports: seq<HostReport>, reports': seq<HostReport>,
                     steps: seq<F.Step>, t: F.State, remote: seq<HostReport>,
                     steps': seq<F.Step>, t': F.State, remote': seq<HostReport>)
    requires IdsOf(reports) == IdsOf(reports')
    requires RunReturns(reports, steps, t, remote) && RunReturns(reports', steps', t', remote')
    ensures Keys(HostKey, remote) == Keys(HostKey, remote')
  {
    hide RunReturns, Keys;
    var order, order' := RunsAgree(reports, reports', steps, t, remote, steps', t', remote');
    var ids := IdsOf(reports);
    forall k | 0 <= k < |remote|
      ensures HostKey(remote[k]) == HostKey(remote'[k])
    {
      assert ids[order[k]] == Keys(IdKey(ids), order)[k] == Keys(IdKey(ids), order')[k] == IdsOf(reports')[order'[k]];
    }
  }

  /** Every order of arrival is the outcome of some run over all hosts. */
  lemma RunFor(reports: seq<HostReport>, order: seq<nat>)
    returns (steps: seq<F.Step>, t: F.State, remote: seq<HostReport>)
    requires F.IsOrdering(RunConfig(|reports|), order)
    ensures RunReturns(reports, steps, t, remote) && t.received == order
  {
    hide F.Reaches, F.IsOrdering, SortedGather;
    var c := RunConfig(|reports|);
    F.ArrivalOrders(c, order);
    steps, t :| F.Reaches(c, steps, t) && t.finished && t.received == order;
    OrderingInRange(c, Singles(reports), order);
    remote := SortedGather(HostKey, Singles(reports), t.received);
  }

  /** A run lists the hosts sorted by identifier. */
  lemma RunSorted(reports: seq<HostReport>, steps: seq<F.Step>, t: F.State, remote: seq<HostReport>)
    requires RunReturns(reports, steps, t, remote)
    ensures forall i, j | 0 <= i < j < |remote| :: Leq(remote[i].hostId, remote[j].hostId)
    ensures multiset(remote) == multiset(reports)
  {
    hide Sort, Gather, Leq, WithKey, F.Reaches, F.Inv, Keys, Flat;
    var c := RunConfig(|reports|);
    F.RunsAreSafe(c, steps, t);
    SortedByKey(HostKey, Gather(Singles(reports), t.received));
    SortCorrect(HostKey, Gather(Singles(reports), t.received), []);
    GatherIsFlat(c, Singles(reports), t.received);
    FlatSingles(reports);
  }

  lemma {:induction false} FlatSingles(reports: seq<HostReport>)
    ensures Flat(Singles(reports)) == reports
  {
    if reports != [] {
      var n := |reports| - 1;
      FlatSingles(reports[..n]);
      assert Singles(reports)[..n] == Singles(reports[..n]);
    }
  }
}
