/** The connectivity check as a whole: the checks that are started for a host, what each of them finds,
    how their results are collected into the report of the host, and how the reports of all hosts are
    collected into the answer.

    What the commands and parsers answer is an oracle: one `Answer` per started check. The schedule is not: the
    theorems speak of every schedule of the checks of every host, together with every schedule of the
    hosts, and of every order in which arping's map of replies may be iterated.
 */
module ConnectivityCheck {
  import opened Common
  import opened StableSort
  import opened Gathering
  import opened ConnectivityJobs
  import opened ConnectivityReport
  import F = FanIn

  const PING := Checker("ping", false)
  const ARPING := Checker("arping", true)
  const NMAP := Checker("nmap", true)
  const MTU := Checker("mtu", true)
  const CHECKERS := [PING, ARPING, NMAP, MTU]

  datatype PingAnswer = PingAnswer(successful: bool, averageRttMs: real, packetLoss: real)

  /** The MAC addresses that replied to arping, and the address it asked from. */
  datatype ArpReplies = ArpReplies(outgoingIp: string, macs: seq<string>)

  /** The remote address: IPv4, anything else that parses, or nothing that does. */
  datatype Remote = Ipv4 | Ipv6 | Invalid

  /** One local address in the MTU check: not an address, of another family than the remote one, or how
      the first and the second ping from it went. */
  datatype MtuPing = NotAnAddress | OtherFamily | NoReply | TooBig | Fits

  /** What a check has to go by: the kind of the remote address, whether the network of a local address
      contains it (none if that does not parse), and what the commands answer. */
  datatype Answer = Answer(
    remote: Remote, contains: string -> Option<bool>, ping: PingAnswer,
    arping: Option<ArpReplies>, nmap: Option<string>, mtuPing: string -> MtuPing)

  const DEFAULT_MTU := 1500

  function NicName(job: Job): string {
    NicOf(job).name
  }

  function Asked(job: Job, outgoingIp: string): Arping {
    Arping(job.attributes.remoteIp, NicName(job), outgoingIp, job.attributes.remoteMacs)
  }

  // ----- which commands are tried -----

  /** Some network contains the remote address, and those before it parse. */
  ghost predicate OnNetwork(addresses: seq<string>, contains: string -> Option<bool>) {
    addresses != [] && contains(addresses[0]).Some?
    && (contains(addresses[0]).value || OnNetwork(addresses[1..], contains))
  }

  method FindNetwork(addresses: seq<string>, contains: string -> Option<bool>) returns (found: bool)
    ensures found == OnNetwork(addresses, contains)
    ensures found <==> exists i: nat :: FirstNetwork(addresses, contains, i)
  {
    OnNetworkIff(addresses, contains);
    for i := 0 to |addresses|
      invariant OnNetwork(addresses, contains) == OnNetwork(addresses[i..], contains)
    {
      assert addresses[i..][1..] == addresses[i + 1..];
      var c := contains(addresses[i]);
      if c.None? {
        return false;
      }
      if c.value {
        return true;
      }
    }
    return false;
  }

  lemma {:induction false} OnNetworkIff(addresses: seq<string>, contains: string -> Option<bool>)
    ensures OnNetwork(addresses, contains) <==> exists i: nat :: FirstNetwork(addresses, contains, i)
  {
    if addresses != [] {
      OnNetworkIff(addresses[1..], contains);
      match contains(addresses[0])
      case None =>
        assert forall i: nat :: !FirstNetwork(addresses, contains, i);
      case Some(here) =>
        if here {
          assert FirstNetwork(addresses, contains, 0);
        } else {
          if i: nat :| FirstNetwork(addresses[1..], contains, i) {
            assert forall j | 1 <= j < i + 1 :: addresses[j] == addresses[1..][j - 1];
            assert FirstNetwork(addresses, contains, i + 1);
          }
          if i: nat :| FirstNetwork(addresses, contains, i) {
            assert FirstNetwork(addresses[1..], contains, i - 1);
          }
        }
    }
  }

  /** The network of address i contains the remote address, those before it do not. */
  ghost predicate FirstNetwork(addresses: seq<string>, contains: string -> Option<bool>, i: nat) {
    && i < |addresses| && contains(addresses[i]) == Some(true)
    && forall j | 0 <= j < i :: contains(addresses[j]) == Some(false)
  }

  /** The MTU over all local addresses of the family: no report if the first ping fails. */
  ghost function MtuOver(addresses: seq<string>, mtuPing: string -> MtuPing): Option<bool> {
    if addresses == [] then Some(true)
    else match mtuPing(addresses[0])
         case NotAnAddress => Some(false)
         case OtherFamily => MtuOver(addresses[1..], mtuPing)
         case NoReply => None
         case TooBig => Some(false)
         case Fits => MtuOver(addresses[1..], mtuPing)
  }

  /** Address i decides: those before it are of another family or fit. */
  ghost predicate DecidesMtu(addresses: seq<string>, mtuPing: string -> MtuPing, i: nat) {
    && i < |addresses| && mtuPing(addresses[i]) != OtherFamily && mtuPing(addresses[i]) != Fits
    && forall j | 0 <= j < i :: mtuPing(addresses[j]) == OtherFamily || mtuPing(addresses[j]) == Fits
  }

  /** The first address that is not of another family and does not fit decides: no report if nothing
      came back, failure otherwise; without one the MTU fits. */
  lemma {:induction false} MtuOverIs(addresses: seq<string>, mtuPing: string -> MtuPing)
    ensures MtuOver(addresses, mtuPing) == Some(true) <==> forall i: nat :: !DecidesMtu(addresses, mtuPing, i)
    ensures forall i: nat | DecidesMtu(addresses, mtuPing, i) ::
              MtuOver(addresses, mtuPing) == if mtuPing(addresses[i]) == NoReply then None else Some(false)
  {
    if addresses != [] {
      MtuOverIs(addresses[1..], mtuPing);
      var p := mtuPing(addresses[0]);
      if p != OtherFamily && p != Fits {
        assert DecidesMtu(addresses, mtuPing, 0);
      } else {
        forall i: nat
          ensures DecidesMtu(addresses, mtuPing, i + 1) <==> DecidesMtu(addresses[1..], mtuPing, i)
        {
          DecidesTail(addresses, mtuPing, i);
        }
        forall i: nat | DecidesMtu(addresses, mtuPing, i)
          ensures i > 0 && DecidesMtu(addresses[1..], mtuPing, i - 1)
        {
          DecidesTail(addresses, mtuPing, i - 1);
        }
        if i: nat :| DecidesMtu(addresses[1..], mtuPing, i) { assert DecidesMtu(addresses, mtuPing, i + 1); }
      }
    }
  }

  lemma DecidesTail(addresses: seq<string>, mtuPing: string -> MtuPing, i: nat)
    requires addresses != [] && (mtuPing(addresses[0]) == OtherFamily || mtuPing(addresses[0]) == Fits)
    ensures DecidesMtu(addresses, mtuPing, i + 1) <==> DecidesMtu(addresses[1..], mtuPing, i)
  {
    assert forall j | 1 <= j < |addresses| :: addresses[j] == addresses[1..][j - 1];
    assert forall j | 0 <= j < |addresses| - 1 :: addresses[1..][j] == addresses[j + 1];
  }

  method PingAddresses(addresses: seq<string>, mtuPing: string -> MtuPing) returns (r: Option<bool>)
    ensures r == MtuOver(addresses, mtuPing)
  {
    for i := 0 to |addresses|
      invariant MtuOver(addresses, mtuPing) == MtuOver(addresses[i..], mtuPing)
    {
      assert addresses[i..][1..] == addresses[i + 1..];
      match mtuPing(addresses[i])
      case NotAnAddress => return Some(false);
      case OtherFamily =>
      case NoReply => return None;
      case TooBig => return Some(false);
      case Fits =>
    }
    return Some(true);
  }

  /** The NIC a job asks through; the checkers that want none do not look at it. */
  function NicOf(job: Job): OutgoingNic {
    if job.attributes.outgoing.Some? then job.attributes.outgoing.value else OutgoingNic("", 0, false, false, [])
  }

  /** What arping tells, if it is tried: only for IPv4, through a NIC with an IPv4 address, on one of
      its networks. */
  ghost function ArpingTells(job: Job, answer: Answer): Option<ArpReplies> {
    if answer.remote.Ipv4? && NicOf(job).hasIpv4 && OnNetwork(NicOf(job).addresses, answer.contains) then answer.arping
    else None
  }

  /** What nmap tells, if it is tried: not for IPv4, through a NIC with an IPv6 address. */
  function NmapTells(job: Job, answer: Answer): Option<string> {
    if answer.remote.Ipv4? || !NicOf(job).hasIpv6 then None else answer.nmap
  }

  /** What the MTU check tells: an address that does not parse fails, the default MTU is not checked. */
  ghost function MtuTells(job: Job, answer: Answer): Option<bool> {
    if answer.remote.Invalid? then Some(false)
    else if NicOf(job).mtu == DEFAULT_MTU then None
    else MtuOver(NicOf(job).addresses, answer.mtuPing)
  }

  // ----- one check -----

  /** The entries of an arping result, in some order of iteration. */
  ghost predicate ArpResult(a: Arping, macs: seq<string>, entries: seq<L2>) {
    exists values :: Deduplicated(a, macs, values) && Emission(values, entries)
  }

  /** What a check may report; only arping leaves a choice. */
  ghost predicate Checks(job: Job, answer: Answer, outcome: Option<Reporter>) {
    var ip := job.attributes.remoteIp;
    && job.checker in CHECKERS
    && if job.checker == PING then
         outcome == Some(L3Result(L3(ip, answer.ping.successful, answer.ping.averageRttMs, answer.ping.packetLoss)))
       else if job.checker == ARPING then
         var replies := ArpingTells(job, answer);
         if replies.None? then outcome == None
         else
           && outcome.Some? && outcome.value.L2Result?
           && ArpResult(Asked(job, replies.value.outgoingIp), replies.value.macs, outcome.value.l2)
       else if job.checker == NMAP then
         var mac := NmapTells(job, answer);
         outcome == if mac.None? then None else Some(L2Result([Entry(Asked(job, ""), Lower(mac.value))]))
       else
         var fits := MtuTells(job, answer);
         outcome == if fits.None? then None else Some(MtuResult(Mtu(ip, NicName(job), fits.value)))
  }

  method Check(job: Job, answer: Answer) returns (outcome: Option<Reporter>)
    requires job.checker in CHECKERS
    ensures Checks(job, answer, outcome)
  {
    hide Lower, KnownMac, Deduplicated, Emission;
    var ip := job.attributes.remoteIp;
    if job.checker == PING {
      return Some(L3Result(L3(ip, answer.ping.successful, answer.ping.averageRttMs, answer.ping.packetLoss)));
    }
    if job.checker == ARPING {
      if !answer.remote.Ipv4? || !NicOf(job).hasIpv4 {
        return None;
      }
      var found := FindNetwork(NicOf(job).addresses, answer.contains);
      if !found || answer.arping.None? {
        return None;
      }
      var asked, macs := Asked(job, answer.arping.value.outgoingIp), answer.arping.value.macs;
      var values := Deduplicate(asked, macs);
      ValuesAreEntries(asked, macs, values);
      var entries := Emit(asked, values);
      return Some(L2Result(entries));
    }
    if job.checker == NMAP {
      var mac := NmapTells(job, answer);
      return if mac.None? then None else Some(L2Result([Entry(Asked(job, ""), Lower(mac.value))]));
    }
    if answer.remote.Invalid? {
      return Some(MtuResult(Mtu(ip, NicName(job), false)));
    }
    if NicOf(job).mtu == DEFAULT_MTU {
      return None;
    }
    var fits := PingAddresses(NicOf(job).addresses, answer.mtuPing);
    return if fits.None? then None else Some(MtuResult(Mtu(ip, NicName(job), fits.value)));
  }

  lemma ValuesAreEntries(a: Arping, macs: seq<string>, values: map<string, L2>)
    requires Deduplicated(a, macs, values)
    ensures forall mac | mac in values :: values[mac] == Entry(a, mac)
  {
  }

  lemma ArpResultsAlike(a: Arping, macs: seq<string>, entries: seq<L2>, entries': seq<L2>)
    requires ArpResult(a, macs, entries) && ArpResult(a, macs, entries')
    ensures multiset(entries) == multiset(entries') && OwnKeysDistinct(L2Key, entries)
  {
    hide Emission, KnownMac, OwnKeysDistinct;
    var values :| Deduplicated(a, macs, values) && Emission(values, entries);
    var values' :| Deduplicated(a, macs, values') && Emission(values', entries');
    assert values.Keys == values'.Keys;
    assert values == values';
    EmissionsAlike(a, values, entries, entries');
  }

  /** The same answer leads to the same result, up to the order of arping's entries. */
  lemma ChecksAlike(job: Job, answer: Answer, outcome: Option<Reporter>, outcome': Option<Reporter>)
    requires Checks(job, answer, outcome) && Checks(job, answer, outcome')
    ensures SameOutcome(outcome, outcome')
    ensures outcome.Some? ==> OwnKeysDistinct(L2Key, L2Of(outcome.value))
  {
    hide ArpResult, Entry, Lower;
    hide ArpingTells, MtuTells;
    var replies := ArpingTells(job, answer);
    if job.checker == ARPING && replies.Some? {
      ArpResultsAlike(Asked(job, replies.value.outgoingIp), replies.value.macs, outcome.value.l2, outcome'.value.l2);
    }
  }

  lemma {:induction false} ArpResultExists(a: Arping, macs: seq<string>)
    returns (values: map<string, L2>, entries: seq<L2>)
    ensures Deduplicated(a, macs, values) && Emission(values, entries)
  {
    hide Lower, KnownMac;
    values, entries := map[], [];
    if macs != [] {
      var n := |macs| - 1;
      values, entries := ArpResultExists(a, macs[..n]);
      assert forall i | 0 <= i < n :: macs[..n][i] == macs[i];
      var mac := Lower(macs[n]);
      if mac !in values {
        values, entries := values[mac := Entry(a, mac)], entries + [Entry(a, mac)];
      }
    }
  }

  /** Every check has a result. */
  lemma CheckExists(job: Job, answer: Answer) returns (outcome: Option<Reporter>)
    requires job.checker in CHECKERS
    ensures Checks(job, answer, outcome)
  {
    hide Lower, KnownMac, Deduplicated, Emission;
    var ip := job.attributes.remoteIp;
    if job.checker == PING {
      outcome := Some(L3Result(L3(ip, answer.ping.successful, answer.ping.averageRttMs, answer.ping.packetLoss)));
    } else if job.checker == ARPING {
      outcome := None;
      var replies := ArpingTells(job, answer);
      if replies.Some? {
        var values, entries := ArpResultExists(Asked(job, replies.value.outgoingIp), replies.value.macs);
        outcome := Some(L2Result(entries));
      }
    } else if job.checker == NMAP {
      var mac := NmapTells(job, answer);
      outcome := if mac.None? then None else Some(L2Result([Entry(Asked(job, ""), Lower(mac.value))]));
    } else {
      var fits := MtuTells(job, answer);
      outcome := if fits.None? then None else Some(MtuResult(Mtu(ip, NicName(job), fits.value)));
    }
  }

  // ----- one host -----

  function JobsFor(outgoing: seq<OutgoingNic>, host: CheckHost): seq<Job> {
    HostJobs(CHECKERS, outgoing, host.nics, Macs(host.nics))
  }

  /** The results of the checks started for a host; `answers(i)` is what check i finds. */
  ghost predicate HostOutcomes(outgoing: seq<OutgoingNic>, host: CheckHost, answers: nat -> Answer,
                               outcomes: Outcomes)
  {
    var jobs := JobsFor(outgoing, host);
    |outcomes| == |jobs| && forall i | 0 <= i < |jobs| :: Checks(jobs[i], answers(i), outcomes[i])
  }

  lemma JobsKnown(outgoing: seq<OutgoingNic>, host: CheckHost, i: nat)
    requires i < |JobsFor(outgoing, host)|
    ensures JobsFor(outgoing, host)[i].checker in CHECKERS
  {
    hide HostJobs, OfNic;
    var job := JobsFor(outgoing, host)[i];
    HostJobsIff(CHECKERS, outgoing, host.nics, Macs(host.nics), job);
  }

  method RunChecks(outgoing: seq<OutgoingNic>, host: CheckHost, answers: nat -> Answer) returns (outcomes: Outcomes)
    ensures HostOutcomes(outgoing, host, answers, outcomes)
  {
    hide Checks, HostJobs;
    var jobs := SpawnForHost(CHECKERS, outgoing, host);
    outcomes := [];
    for i := 0 to |jobs|
      invariant |outcomes| == i && forall j | 0 <= j < i :: Checks(jobs[j], answers(j), outcomes[j])
    {
      JobsKnown(outgoing, host, i);
      var outcome := Check(jobs[i], answers(i));
      outcomes := outcomes + [outcome];
    }
  }

  lemma {:induction false} OutcomesExist(outgoing: seq<OutgoingNic>, host: CheckHost, answers: nat -> Answer, n: nat)
    returns (outcomes: Outcomes)
    requires n <= |JobsFor(outgoing, host)|
    ensures |outcomes| == n && forall i | 0 <= i < n :: Checks(JobsFor(outgoing, host)[i], answers(i), outcomes[i])
  {
    hide Checks, JobsFor;
    outcomes := [];
    if n > 0 {
      var before := OutcomesExist(outgoing, host, answers, n - 1);
      JobsKnown(outgoing, host, n - 1);
      var last := CheckExists(JobsFor(outgoing, host)[n - 1], answers(n - 1));
      outcomes := before + [last];
    }
  }

  lemma OutcomesAlike(outgoing: seq<OutgoingNic>, host: CheckHost, answers: nat -> Answer, outcomes: Outcomes,
                      outcomes': Outcomes)
    requires HostOutcomes(outgoing, host, answers, outcomes) && HostOutcomes(outgoing, host, answers, outcomes')
    ensures SameOutcomes(outcomes, outcomes') && WellFormed(outcomes)
  {
    hide Checks, HostJobs, SameOutcome, OwnKeysDistinct;
    var jobs := JobsFor(outgoing, host);
    forall i | 0 <= i < |outcomes|
      ensures SameOutcome(outcomes[i], outcomes'[i])
      ensures outcomes[i].Some? ==> OwnKeysDistinct(L2Key, L2Of(outcomes[i].value))
    {
      ChecksAlike(jobs[i], answers(i), outcomes[i], outcomes'[i]);
    }
  }

  /** A check of one of the host's addresses by one of the checkers, as the host asks for. */
  ghost predicate Due(outgoing: seq<OutgoingNic>, host: CheckHost, job: Job) {
    && (exists n :: 0 <= n < |host.nics| && OfNic(host.nics[n], Macs(host.nics), job))
    && Wanted(CHECKERS, outgoing, job)
  }

  /** The checks of a host by name: every non-empty address is pinged once, and asked for by arping, nmap
      and the MTU check through every outgoing NIC; there are no others. */
  lemma ChecksStarted(outgoing: seq<OutgoingNic>, host: CheckHost, n: nat, j: nat)
    requires n < |host.nics| && j < |host.nics[n].ipAddresses| && AddressOf(host.nics[n].ipAddresses[j]) != ""
    ensures IsStarted(outgoing, host, n, j, "ping", None)
    ensures forall nic | nic in outgoing ::
              && IsStarted(outgoing, host, n, j, "arping", Some(nic))
              && IsStarted(outgoing, host, n, j, "nmap", Some(nic))
              && IsStarted(outgoing, host, n, j, "mtu", Some(nic))
    ensures |JobsFor(outgoing, host)| == CountAllAddresses(host.nics) * (1 + 3 * |outgoing|)
  {
    hide HostJobs, Macs, CountAllAddresses;
    assert CHECKERS[0] == PING && CHECKERS[1] == ARPING && CHECKERS[2] == NMAP && CHECKERS[3] == MTU;
    var job := JobStarted(outgoing, host, n, j, PING, None);
    forall nic | nic in outgoing
      ensures IsStarted(outgoing, host, n, j, "arping", Some(nic))
      ensures IsStarted(outgoing, host, n, j, "nmap", Some(nic))
      ensures IsStarted(outgoing, host, n, j, "mtu", Some(nic))
    {
      var a := JobStarted(outgoing, host, n, j, ARPING, Some(nic));
      var b := JobStarted(outgoing, host, n, j, NMAP, Some(nic));
      var c := JobStarted(outgoing, host, n, j, MTU, Some(nic));
    }
    HostJobsCount(CHECKERS, outgoing, host.nics, Macs(host.nics));
    CheckersCounted(outgoing);
  }

  /** The job checks address j of NIC n by this checker, through this NIC. */
  ghost predicate Asks(host: CheckHost, n: nat, j: nat, job: Job, name: string, nic: Option<OutgoingNic>)
    requires n < |host.nics| && j < |host.nics[n].ipAddresses|
  {
    && job.checker.name == name && job.attributes.outgoing == nic
    && job.attributes.remoteIp == AddressOf(host.nics[n].ipAddresses[j])
    && job.attributes.remoteMac == host.nics[n].mac && job.attributes.remoteMacs == Macs(host.nics)
  }

  ghost predicate IsStarted(outgoing: seq<OutgoingNic>, host: CheckHost, n: nat, j: nat, name: string,
                            nic: Option<OutgoingNic>)
    requires n < |host.nics| && j < |host.nics[n].ipAddresses|
  {
    exists job :: job in JobsFor(outgoing, host) && Asks(host, n, j, job, name, nic)
  }

  lemma JobStarted(outgoing: seq<OutgoingNic>, host: CheckHost, n: nat, j: nat, checker: Checker,
                   nic: Option<OutgoingNic>)
    returns (job: Job)
    requires n < |host.nics| && j < |host.nics[n].ipAddresses| && AddressOf(host.nics[n].ipAddresses[j]) != ""
    requires checker in CHECKERS && (checker.wantsOutgoingNic <==> nic.Some?) && (nic.Some? ==> nic.value in outgoing)
    ensures job in JobsFor(outgoing, host) && Asks(host, n, j, job, checker.name, nic)
  {
    hide HostJobs, Macs, AddressOf;
    var macs, from := Macs(host.nics), host.nics[n];
    job := Job(Attributes(AddressOf(from.ipAddresses[j]), from.mac, nic, macs), checker);
    assert Addressed(from.ipAddresses[j], from.mac, macs, job);
    assert OfNic(host.nics[n], macs, job);
    HostJobsIff(CHECKERS, outgoing, host.nics, macs, job);
  }

  lemma CheckersCounted(outgoing: seq<OutgoingNic>)
    ensures PerAddress(CHECKERS, outgoing) == 1 + 3 * |outgoing|
  {
    hide CountWanting;
    CountAppend([PING, ARPING, NMAP], MTU);
    CountAppend([PING, ARPING], NMAP);
    CountAppend([PING], ARPING);
    CountAppend([], PING);
    assert [] + [PING] == [PING] && [PING] + [ARPING] == [PING, ARPING];
    assert [PING, ARPING] + [NMAP] == [PING, ARPING, NMAP] && [PING, ARPING, NMAP] + [MTU] == CHECKERS;
  }

  lemma CountAppend(checkers: seq<Checker>, c: Checker)
    ensures forall wanting :: CountWanting(checkers + [c], wanting)
                              == CountWanting(checkers, wanting) + if c.wantsOutgoingNic == wanting then 1 else 0
    ensures CountWanting([], true) == CountWanting([], false) == 0
  {
    assert (checkers + [c])[..|checkers|] == checkers;
  }

  /** For every host and every schedule of its checks: the checks started are those due; no panic, no
      deadlock, at most 5n + 3 steps; and when the collection has finished, each result that is not
      empty has been reported exactly once. (`HostSteps` says that reporting happens on receipt, and
      finalizing once, after the last report.) */
  lemma ProcessHostReports(outgoing: seq<OutgoingNic>, host: CheckHost, answers: nat -> Answer, outcomes: Outcomes,
                           steps: seq<F.Step>, t: F.State)
    requires HostOutcomes(outgoing, host, answers, outcomes) && F.Reaches(HostConfig(outcomes), steps, t)
    ensures forall job :: job in JobsFor(outgoing, host) <==> Due(outgoing, host, job)
    ensures !t.panicked && |steps| <= 5 * |JobsFor(outgoing, host)| + 3
    ensures F.Stuck(HostConfig(outcomes), t) ==> t.finished
    ensures t.finished ==>
              && Distinct(t.received) && Deliverable(outcomes, t.received)
              && (forall i :: i in t.received <==> 0 <= i < |JobsFor(outgoing, host)| && outcomes[i].Some?)
              && HostAt(host.hostId, outcomes, t) == Finalized(Collected(host.hostId, outcomes, t.received))
  {
    hide HostJobs, OfNic, Wanted, Checks, F.Reaches, F.Stuck, Collected, Finalized;
    forall job
      ensures job in JobsFor(outgoing, host) <==> Due(outgoing, host, job)
    {
      HostJobsIff(CHECKERS, outgoing, host.nics, Macs(host.nics), job);
    }
    ProcessHostSafe(outcomes, steps, t);
    if t.finished {
      assert forall k | 0 <= k < |t.received| :: t.received[k] in t.received;
    }
  }

  /** One way the processing of a host can go: the results, the schedule and the report. */
  datatype HostRun = HostRun(outcomes: Outcomes, steps: seq<F.Step>, t: F.State, report: HostReport)

  ghost predicate HostRuns(outgoing: seq<OutgoingNic>, host: CheckHost, answers: nat -> Answer, run: HostRun) {
    && HostOutcomes(outgoing, host, answers, run.outcomes)
    && Finishes(host.hostId, run.outcomes, run.steps, run.t, run.report)
  }

  /** Any two ways to process a host report the same up to ties, and identically without ties. */
  lemma HostRunsAgree(outgoing: seq<OutgoingNic>, host: CheckHost, answers: nat -> Answer, run: HostRun, run': HostRun)
    requires HostRuns(outgoing, host, answers, run) && HostRuns(outgoing, host, answers, run')
    ensures SameReportUpToTies(run.report, run'.report)
    ensures NoTiesIn(run.outcomes) ==> run.report == run'.report
    ensures run.report.hostId == run'.report.hostId == host.hostId
  {
    hide HostOutcomes, NoTiesIn, SameUpToTies, WellFormed, SameOutcomes;
    OutcomesAlike(outgoing, host, answers, run.outcomes, run'.outcomes);
    HostReportsAgree(host.hostId, run.outcomes, run'.outcomes, run.steps, run.t, run.report, run'.steps, run'.t,
                     run'.report);
    CollectedIs(host.hostId, run.outcomes, run.t.received);
  }

  // ----- what the report of a host says -----

  /** The layer-3 entry of a ping. */
  ghost predicate PingEntry(job: Job, answer: Answer, f: L3) {
    && job.checker.name == "ping" && f.remoteIp == job.attributes.remoteIp
    && f.successful == answer.ping.successful
    && f.averageRttMs == answer.ping.averageRttMs && f.packetLoss == answer.ping.packetLoss
  }

  /** What a layer-2 entry says of where it was asked, and whether the MAC is one of the host's. */
  ghost predicate AboutNic(job: Job, nic: OutgoingNic, e: L2) {
    && job.attributes.outgoing == Some(nic) && e.outgoingNic == nic.name && e.remoteIp == job.attributes.remoteIp
    && (e.successful <==> exists n ::
          0 <= n < |job.attributes.remoteMacs| && Lower(job.attributes.remoteMacs[n]) == e.remoteMac)
  }

  /** A layer-2 entry of arping: IPv4, on the first network of the NIC that contains the address, from a
      MAC address that replied. */
  ghost predicate ArpEntry(job: Job, answer: Answer, nic: OutgoingNic, e: L2) {
    && job.checker.name == "arping" && AboutNic(job, nic, e)
    && answer.remote == Ipv4 && nic.hasIpv4 && (exists i: nat :: FirstNetwork(nic.addresses, answer.contains, i))
    && answer.arping.Some? && e.outgoingIp == answer.arping.value.outgoingIp
    && exists k :: 0 <= k < |answer.arping.value.macs| && Lower(answer.arping.value.macs[k]) == e.remoteMac
  }

  /** A layer-2 entry of nmap: not IPv4, through a NIC with an IPv6 address. */
  ghost predicate NmapEntry(job: Job, answer: Answer, nic: OutgoingNic, e: L2) {
    && job.checker.name == "nmap" && AboutNic(job, nic, e)
    && answer.remote != Ipv4 && nic.hasIpv6
    && answer.nmap.Some? && e.outgoingIp == "" && e.remoteMac == Lower(answer.nmap.value)
  }

  /** The MTU entry: a remote address that does not parse fails; otherwise only an MTU other than 1500 is
      tried, and the first local address that does not pass decides. */
  ghost predicate MtuEntry(job: Job, answer: Answer, nic: OutgoingNic, g: Mtu) {
    && job.checker.name == "mtu" && job.attributes.outgoing == Some(nic)
    && g.remoteIp == job.attributes.remoteIp && g.outgoingNic == nic.name
    && if answer.remote == Invalid then !g.successful
       else
         && nic.mtu != 1500
         && if g.successful then forall i: nat :: !DecidesMtu(nic.addresses, answer.mtuPing, i)
            else exists i: nat ::
                   DecidesMtu(nic.addresses, answer.mtuPing, i) && answer.mtuPing(nic.addresses[i]) != NoReply
  }

  lemma JobsHaveNics(outgoing: seq<OutgoingNic>, host: CheckHost, i: nat)
    requires i < |JobsFor(outgoing, host)|
    ensures var job := JobsFor(outgoing, host)[i];
            job.checker in CHECKERS && (job.checker.wantsOutgoingNic <==> job.attributes.outgoing.Some?)
  {
    hide HostJobs, OfNic;
    HostJobsIff(CHECKERS, outgoing, host.nics, Macs(host.nics), JobsFor(outgoing, host)[i]);
  }

  lemma PingTells(job: Job, answer: Answer, outcome: Option<Reporter>, f: L3)
    requires Checks(job, answer, outcome)
    ensures outcome == Some(L3Result(f)) <==> PingEntry(job, answer, f)
  {
    hide ArpResult, Lower, KnownMac, ArpingTells, MtuTells;
  }

  lemma MtuTellsIt(job: Job, answer: Answer, outcome: Option<Reporter>, g: Mtu)
    requires Checks(job, answer, outcome)
    requires job.checker.wantsOutgoingNic <==> job.attributes.outgoing.Some?
    ensures outcome == Some(MtuResult(g)) <==> exists nic :: MtuEntry(job, answer, nic, g)
  {
    hide ArpResult, Lower, KnownMac, ArpingTells, MtuOver, DecidesMtu;
    if job.checker == MTU {
      var nic := job.attributes.outgoing.value;
      MtuOverIs(nic.addresses, answer.mtuPing);
      assert outcome == Some(MtuResult(g)) <==> MtuEntry(job, answer, nic, g);
    }
  }

  lemma EntrySays(job: Job, outgoingIp: string, mac: string, e: L2)
    requires job.attributes.outgoing.Some? && Lower(mac) == mac
    ensures e == Entry(Asked(job, outgoingIp), mac) <==>
            AboutNic(job, job.attributes.outgoing.value, e) && e.outgoingIp == outgoingIp && e.remoteMac == mac
  {
    hide Lower;
  }

  lemma NmapTellsIt(job: Job, answer: Answer, outcome: Option<Reporter>, e: L2)
    requires job.checker == NMAP && Checks(job, answer, outcome) && job.attributes.outgoing.Some?
    ensures ListsL2(outcome, e) <==> NmapEntry(job, answer, job.attributes.outgoing.value, e)
  {
    hide ArpResult, Lower, KnownMac, AboutNic, Entry;
    if answer.nmap.Some? {
      LowerTwice(answer.nmap.value);
      EntrySays(job, "", Lower(answer.nmap.value), e);
    }
  }

  lemma ArpingTellsIt(job: Job, answer: Answer, outcome: Option<Reporter>, e: L2)
    requires job.checker == ARPING && Checks(job, answer, outcome) && job.attributes.outgoing.Some?
    ensures ListsL2(outcome, e) <==> ArpEntry(job, answer, job.attributes.outgoing.value, e)
  {
    hide Lower, KnownMac, AboutNic, Entry, FirstNetwork, OnNetwork;
    OnNetworkIff(job.attributes.outgoing.value.addresses, answer.contains);
    var replies := ArpingTells(job, answer);
    if replies.Some? {
      var macs, a := replies.value.macs, Asked(job, replies.value.outgoingIp);
      var values :| Deduplicated(a, macs, values) && Emission(values, outcome.value.l2);
      if k :| 0 <= k < |macs| && Lower(macs[k]) == e.remoteMac {
        LowerTwice(macs[k]);
        EntrySays(job, replies.value.outgoingIp, e.remoteMac, e);
      }
      EntryMac(a, values, e.remoteMac);
    }
  }

  lemma EntryMac(a: Arping, values: map<string, L2>, mac: string)
    requires forall m | m in values :: values[m] == Entry(a, m)
    ensures mac in values ==> values[mac] == Entry(a, mac) && values[mac].remoteMac == mac
  {
  }

  ghost predicate FoundL2(job: Job, answer: Answer, e: L2) {
    exists nic :: ArpEntry(job, answer, nic, e) || NmapEntry(job, answer, nic, e)
  }

  ghost predicate FoundMtu(job: Job, answer: Answer, g: Mtu) {
    exists nic :: MtuEntry(job, answer, nic, g)
  }

  lemma L2TellsIt(job: Job, answer: Answer, outcome: Option<Reporter>, e: L2)
    requires Checks(job, answer, outcome)
    requires job.checker.wantsOutgoingNic <==> job.attributes.outgoing.Some?
    ensures ListsL2(outcome, e) <==> FoundL2(job, answer, e)
  {
    hide ArpResult, Lower, KnownMac, Entry, ArpingTells, MtuTells, FirstNetwork;
    if job.checker == ARPING {
      ArpingTellsIt(job, answer, outcome, e);
    } else if job.checker == NMAP {
      NmapTellsIt(job, answer, outcome, e);
    }
  }

  /** In every way to process a host, its report says exactly what its checks found: the answer of every
      ping, every MAC address that replied, every MTU result, and nothing else. */
  lemma HostReportSays(outgoing: seq<OutgoingNic>, host: CheckHost, answers: nat -> Answer, run: HostRun,
                       e: L2, f: L3, g: Mtu)
    requires HostRuns(outgoing, host, answers, run)
    ensures var jobs := JobsFor(outgoing, host);
            && (e in run.report.l2 <==> exists i :: 0 <= i < |jobs| && FoundL2(jobs[i], answers(i), e))
            && (f in run.report.l3 <==> exists i :: 0 <= i < |jobs| && PingEntry(jobs[i], answers(i), f))
            && (g in run.report.mtu <==> exists i :: 0 <= i < |jobs| && FoundMtu(jobs[i], answers(i), g))
  {
    hide HostJobs, Checks, Finishes, FoundL2, FoundMtu, PingEntry, ListsL2;
    var jobs, o := JobsFor(outgoing, host), run.outcomes;
    ReportHolds(host.hostId, o, run.steps, run.t, run.report, e, f, g);
    forall i | 0 <= i < |jobs|
      ensures ListsL2(o[i], e) <==> FoundL2(jobs[i], answers(i), e)
      ensures o[i] == Some(L3Result(f)) <==> PingEntry(jobs[i], answers(i), f)
      ensures o[i] == Some(MtuResult(g)) <==> FoundMtu(jobs[i], answers(i), g)
    {
      JobsHaveNics(outgoing, host, i);
      L2TellsIt(jobs[i], answers(i), o[i], e);
      PingTells(jobs[i], answers(i), o[i], f);
      MtuFound(jobs[i], answers(i), o[i], g);
    }
  }

  lemma MtuFound(job: Job, answer: Answer, outcome: Option<Reporter>, g: Mtu)
    requires Checks(job, answer, outcome)
    requires job.checker.wantsOutgoingNic <==> job.attributes.outgoing.Some?
    ensures outcome == Some(MtuResult(g)) <==> FoundMtu(job, answer, g)
  {
    hide Checks, MtuEntry;
    MtuTellsIt(job, answer, outcome, g);
  }

  // ----- two outgoing NICs -----

  /** An address that answers arping with one MAC address through two outgoing NICs ties: the report of
      the host depends on the schedule. */
  lemma ArpingTies(outgoing: seq<OutgoingNic>, host: CheckHost, answers: nat -> Answer, outcomes: Outcomes,
                   i: nat, j: nat, mac: string)
    requires HostOutcomes(outgoing, host, answers, outcomes)
    requires i < |outcomes| && j < |outcomes|
    requires var jobs := JobsFor(outgoing, host);
             && jobs[i].checker == jobs[j].checker == ARPING
             && jobs[i].attributes.remoteIp == jobs[j].attributes.remoteIp
             && NicName(jobs[i]) != NicName(jobs[j])
             && RepliedFrom(jobs[i], answers(i), mac) && RepliedFrom(jobs[j], answers(j), mac)
    ensures !ReportDetermined(host.hostId, outcomes)
  {
    hide HostJobs, Lower, KnownMac, NoTies, ReportDetermined, OwnKeysDistinct;
    var jobs := JobsFor(outgoing, host);
    assert Checks(jobs[i], answers(i), outcomes[i]) && Checks(jobs[j], answers(j), outcomes[j]);
    var x := ReplyIsReported(jobs[i], answers(i), outcomes[i], mac);
    var y := ReplyIsReported(jobs[j], answers(j), outcomes[j], mac);
    OutcomesAlike(outgoing, host, answers, outcomes, outcomes);
    ReportDeterminedIff(host.hostId, outcomes);
    TieIsNoted(outcomes, i, j, x, y);
  }

  ghost predicate RepliedFrom(job: Job, answer: Answer, mac: string) {
    var replies := ArpingTells(job, answer);
    replies.Some? && exists k :: 0 <= k < |replies.value.macs| && Lower(replies.value.macs[k]) == mac
  }

  lemma ReplyIsReported(job: Job, answer: Answer, outcome: Option<Reporter>, mac: string) returns (x: L2)
    requires job.checker == ARPING && Checks(job, answer, outcome) && RepliedFrom(job, answer, mac)
    ensures outcome.Some? && x in L2Of(outcome.value)
    ensures x.remoteIp == job.attributes.remoteIp && x.remoteMac == mac && x.outgoingNic == NicName(job)
  {
    hide Lower, KnownMac;
    hide ArpingTells;
    var replies := ArpingTells(job, answer).value;
    var a, macs := Asked(job, replies.outgoingIp), replies.macs;
    var values :| Deduplicated(a, macs, values) && Emission(values, outcome.value.l2);
    assert mac in values;
    x := values[mac];
  }

  lemma TieIsNoted(outcomes: Outcomes, i: nat, j: nat, x: L2, y: L2)
    requires i < |outcomes| && j < |outcomes| && outcomes[i].Some? && outcomes[j].Some?
    requires x in L2Of(outcomes[i].value) && y in L2Of(outcomes[j].value) && x != y && L2Key(x) == L2Key(y)
    ensures !NoTiesIn(outcomes)
  {
    var c, parts := HostConfig(outcomes), L2Parts(outcomes);
    assert i in F.Senders(c) && j in F.Senders(c);
    assert x in parts[i] && y in parts[j];
  }

  /** Every check finds the same. */
  function Constant(answer: Answer): nat -> Answer {
    (_: nat) => answer
  }

  /** Only ping and arping answer, arping with one MAC address. */
  function OneReply(ping: PingAnswer, mac: string): Answer {
    Answer(Ipv4, _ => Some(true), ping, Some(ArpReplies("", [mac])), None, _ => NoReply)
  }

  /** The smallest such host: one address, two outgoing NICs on its network. */
  lemma TwoNicsTie(ip: string, mac: string, nic: OutgoingNic, nic': OutgoingNic, ping: PingAnswer)
    returns (outcomes: Outcomes)
    requires AddressOf(ip) == ip != "" && nic.name != nic'.name
    requires nic.hasIpv4 && nic'.hasIpv4 && nic.addresses != [] && nic'.addresses != []
    ensures HostOutcomes([nic, nic'], CheckHost("host", [Nic(mac, [ip])]), Constant(OneReply(ping, mac)), outcomes)
    ensures !ReportDetermined("host", outcomes)
  {
    hide HostJobs, Lower, Checks, ReportDetermined;
    var host, outgoing := CheckHost("host", [Nic(mac, [ip])]), [nic, nic'];
    var answers := Constant(OneReply(ping, mac));
    outcomes := OutcomesExist(outgoing, host, answers, |JobsFor(outgoing, host)|);
    var i := ArpingJob(ip, mac, outgoing, nic);
    var j := ArpingJob(ip, mac, outgoing, nic');
    assert answers(i).arping.value.macs[0] == mac;
    ArpingTies(outgoing, host, answers, outcomes, i, j, Lower(mac));
  }

  lemma ArpingJob(ip: string, mac: string, outgoing: seq<OutgoingNic>, nic: OutgoingNic) returns (i: nat)
    requires AddressOf(ip) == ip != "" && nic in outgoing
    ensures var jobs := JobsFor(outgoing, CheckHost("host", [Nic(mac, [ip])]));
            i < |jobs| && jobs[i].checker == ARPING && jobs[i].attributes.remoteIp == ip && NicOf(jobs[i]) == nic
  {
    hide HostJobs, Macs;
    var host := CheckHost("host", [Nic(mac, [ip])]);
    var job := Job(Attributes(ip, mac, Some(nic), Macs(host.nics)), ARPING);
    assert CHECKERS[1] == ARPING;
    assert Addressed(host.nics[0].ipAddresses[0], mac, Macs(host.nics), job);
    assert OfNic(host.nics[0], Macs(host.nics), job);
    HostJobsIff(CHECKERS, outgoing, host.nics, Macs(host.nics), job);
    i :| 0 <= i < |JobsFor(outgoing, host)| && JobsFor(outgoing, host)[i] == job;
  }

  // ----- all hosts -----

  /** One way the whole check can go: `answers(i)(j)` is what check j of host i finds. */
  ghost predicate Runs(outgoing: seq<OutgoingNic>, hosts: seq<CheckHost>, answers: nat -> nat -> Answer,
                       runs: seq<HostRun>)
  {
    |runs| == |hosts| && forall i | 0 <= i < |hosts| :: HostRuns(outgoing, hosts[i], answers(i), runs[i])
  }

  ghost function Reports(runs: seq<HostRun>): (reports: seq<HostReport>)
    ensures |reports| == |runs| && forall i | 0 <= i < |runs| :: reports[i] == runs[i].report
  {
    seq(|runs|, i requires 0 <= i < |runs| => runs[i].report)
  }

  ghost function HostIds(hosts: seq<CheckHost>): (ids: seq<string>)
    ensures |ids| == |hosts| && forall i | 0 <= i < |hosts| :: ids[i] == hosts[i].hostId
  {
    seq(|hosts|, i requires 0 <= i < |hosts| => hosts[i].hostId)
  }

  /** The whole check: every host processed, their reports collected and sorted into `remote`. */
  ghost predicate Returns(outgoing: seq<OutgoingNic>, hosts: seq<CheckHost>, answers: nat -> nat -> Answer,
                          runs: seq<HostRun>, steps: seq<F.Step>, t: F.State, remote: seq<HostReport>) {
    Runs(outgoing, hosts, answers, runs) && RunReturns(Reports(runs), steps, t, remote)
  }

  lemma IdsAreHostIds(outgoing: seq<OutgoingNic>, hosts: seq<CheckHost>, answers: nat -> nat -> Answer,
                      runs: seq<HostRun>)
    requires Runs(outgoing, hosts, answers, runs)
    ensures IdsOf(Reports(runs)) == HostIds(hosts)
  {
    hide HostRuns;
    forall i | 0 <= i < |hosts|
      ensures runs[i].report.hostId == hosts[i].hostId
    {
      HostRunsAgree(outgoing, hosts[i], answers(i), runs[i], runs[i]);
    }
  }

  /** Any two runs of the whole check with the same answers return the same up to ties: the hosts are
      listed in orders that differ only among hosts with one identifier, and each host is reported the
      same up to entries with one sort key. With distinct identifiers the places agree, and if
      moreover no host has ties, the two are identical. */
  lemma RunsReturnAlike(outgoing: seq<OutgoingNic>, hosts: seq<CheckHost>, answers: nat -> nat -> Answer,
                        runs: seq<HostRun>, steps: seq<F.Step>, t: F.State, remote: seq<HostReport>,
                        runs': seq<HostRun>, steps': seq<F.Step>, t': F.State, remote': seq<HostReport>)
    returns (order: seq<nat>, order': seq<nat>)
    requires Returns(outgoing, hosts, answers, runs, steps, t, remote)
    requires Returns(outgoing, hosts, answers, runs', steps', t', remote')
    ensures SameUpToTies(IdKey(HostIds(hosts)), order, order')
    ensures InRange(Reports(runs), order) && remote == At(Reports(runs), order)
    ensures InRange(Reports(runs'), order') && remote' == At(Reports(runs'), order')
    ensures forall i | 0 <= i < |hosts| :: SameReportUpToTies(runs[i].report, runs'[i].report)
    ensures Distinct(HostIds(hosts)) ==>
              |remote| == |remote'| && forall k | 0 <= k < |remote| :: SameReportUpToTies(remote[k], remote'[k])
    ensures Distinct(HostIds(hosts)) && (forall i | 0 <= i < |hosts| :: NoTiesIn(runs[i].outcomes)) ==>
      remote == remote'
  {
    hide HostRuns, RunReturns, SameUpToTies, SameReportUpToTies, NoTiesIn, IdKey, F.IsOrdering;
    IdsAreHostIds(outgoing, hosts, answers, runs);
    IdsAreHostIds(outgoing, hosts, answers, runs');
    forall i | 0 <= i < |hosts|
      ensures SameReportUpToTies(runs[i].report, runs'[i].report)
      ensures NoTiesIn(runs[i].outcomes) ==> runs[i].report == runs'[i].report
    {
      HostRunsAgree(outgoing, hosts[i], answers(i), runs[i], runs'[i]);
    }
    order, order' := RunsAgree(Reports(runs), Reports(runs'), steps, t, remote, steps', t', remote');
  }

  lemma HostRunExists(outgoing: seq<OutgoingNic>, host: CheckHost, answers: nat -> Answer) returns (run: HostRun)
    ensures HostRuns(outgoing, host, answers, run)
  {
    hide HostJobs, Checks, Finishes, ReportOf, L2Parts, HostConfig, F.Senders;
    var outcomes := OutcomesExist(outgoing, host, answers, |JobsFor(outgoing, host)|);
    var order := Listing(F.Senders(HostConfig(outcomes)));
    var steps, t, r := ScheduleFor(host.hostId, outcomes, order);
    run := HostRun(outcomes, steps, t, r);
  }

  lemma {:induction false} RunsExist(outgoing: seq<OutgoingNic>, hosts: seq<CheckHost>,
                                     answers: nat -> nat -> Answer, n: nat)
    returns (runs: seq<HostRun>)
    requires n <= |hosts|
    ensures |runs| == n && forall i | 0 <= i < n :: HostRuns(outgoing, hosts[i], answers(i), runs[i])
  {
    hide HostRuns;
    runs := [];
    if n > 0 {
      var before := RunsExist(outgoing, hosts, answers, n - 1);
      var last := HostRunExists(outgoing, hosts[n - 1], answers(n - 1));
      runs := before + [last];
    }
  }

  /** Whatever the checks find, the whole check can return, the hosts in any order of arrival. */
  lemma CheckReturns(outgoing: seq<OutgoingNic>, hosts: seq<CheckHost>, answers: nat -> nat -> Answer,
                     arrival: seq<nat>)
    returns (runs: seq<HostRun>, steps: seq<F.Step>, t: F.State, remote: seq<HostReport>)
    requires F.IsOrdering(RunConfig(|hosts|), arrival)
    ensures Returns(outgoing, hosts, answers, runs, steps, t, remote) && t.received == arrival
  {
    hide HostRuns, RunReturns, F.IsOrdering;
    runs := RunsExist(outgoing, hosts, answers, |hosts|);
    steps, t, remote := RunFor(Reports(runs), arrival);
  }

  // ----- when the answer does not depend on the schedule -----

  ghost predicate RunDetermined(outgoing: seq<OutgoingNic>, hosts: seq<CheckHost>, answers: nat -> nat -> Answer) {
    forall runs, steps, t, remote, runs', steps', t', remote' |
      Returns(outgoing, hosts, answers, runs, steps, t, remote)
        && Returns(outgoing, hosts, answers, runs', steps', t', remote') ::
      remote == remote'
  }

  /** No host has ties, and hosts with one identifier have one report. */
  ghost predicate TieFreeRuns(hosts: seq<CheckHost>, runs: seq<HostRun>)
    requires |runs| == |hosts|
  {
    && (forall i | 0 <= i < |hosts| :: NoTiesIn(runs[i].outcomes))
    && (forall i, j | 0 <= i < |hosts| && 0 <= j < |hosts| && hosts[i].hostId == hosts[j].hostId ::
      runs[i].report == runs[j].report)
  }

  /** Every way the checks can go: no host has ties, and hosts with one identifier have one report. */
  ghost predicate AlwaysTieFree(outgoing: seq<OutgoingNic>, hosts: seq<CheckHost>, answers: nat -> nat -> Answer) {
    forall runs | Runs(outgoing, hosts, answers, runs) :: TieFreeRuns(hosts, runs)
  }

  lemma TieFreeReturnsOne(outgoing: seq<OutgoingNic>, hosts: seq<CheckHost>, answers: nat -> nat -> Answer,
                          runs: seq<HostRun>, steps: seq<F.Step>, t: F.State, remote: seq<HostReport>,
                          runs': seq<HostRun>, steps': seq<F.Step>, t': F.State, remote': seq<HostReport>)
    requires Returns(outgoing, hosts, answers, runs, steps, t, remote) && TieFreeRuns(hosts, runs)
    requires Returns(outgoing, hosts, answers, runs', steps', t', remote')
    ensures remote == remote'
  {
    hide HostRuns, RunReturns, SameReportUpToTies, NoTiesIn, F.IsOrdering;
    var order, order' := RunsReturnAlike(outgoing, hosts, answers, runs, steps, t, remote, runs', steps', t', remote');
    var ids, key := HostIds(hosts), IdKey(HostIds(hosts));
    forall k | 0 <= k < |order|
      ensures remote[k] == remote'[k]
    {
      var i, j := order[k], order'[k];
      assert key(i) == Keys(key, order)[k] == Keys(key, order')[k] == key(j);
      assert hosts[i].hostId == hosts[j].hostId;
      HostRunsAgree(outgoing, hosts[j], answers(j), runs[j], runs'[j]);
    }
  }

  /** If the answer is determined, so is the report of every host. */
  lemma DeterminedHost(outgoing: seq<OutgoingNic>, hosts: seq<CheckHost>, answers: nat -> nat -> Answer,
                       runs: seq<HostRun>, i: nat)
    requires RunDetermined(outgoing, hosts, answers) && Runs(outgoing, hosts, answers, runs) && i < |hosts|
    ensures NoTiesIn(runs[i].outcomes)
  {
    hide HostRuns, RunReturns, Finishes, NoTiesIn, RunDetermined, HostOutcomes, WellFormed;
    var id, outcomes := hosts[i].hostId, runs[i].outcomes;
    forall steps, t, r, steps', t', r' | Finishes(id, outcomes, steps, t, r) && Finishes(id, outcomes, steps', t', r')
      ensures r == r'
    {
      var run, run' := HostRun(outcomes, steps, t, r), HostRun(outcomes, steps', t', r');
      OneHostShows(outgoing, hosts, answers, runs, i, run, run');
    }
    OutcomesOfRun(outgoing, hosts[i], answers(i), runs[i]);
    ReportDeterminedIff(id, outcomes);
  }

  lemma OutcomesOfRun(outgoing: seq<OutgoingNic>, host: CheckHost, answers: nat -> Answer, run: HostRun)
    requires HostRuns(outgoing, host, answers, run)
    ensures WellFormed(run.outcomes)
  {
    OutcomesAlike(outgoing, host, answers, run.outcomes, run.outcomes);
  }

  /** Two runs of one host beside the same runs of the others and under one schedule of the hosts. */
  lemma OneHostShows(outgoing: seq<OutgoingNic>, hosts: seq<CheckHost>, answers: nat -> nat -> Answer,
                     runs: seq<HostRun>, i: nat, run: HostRun, run': HostRun)
    requires RunDetermined(outgoing, hosts, answers) && Runs(outgoing, hosts, answers, runs) && i < |hosts|
    requires run.outcomes == run'.outcomes == runs[i].outcomes
    requires Finishes(hosts[i].hostId, run.outcomes, run.steps, run.t, run.report)
    requires Finishes(hosts[i].hostId, run'.outcomes, run'.steps, run'.t, run'.report)
    ensures run.report == run'.report
  {
    hide Finishes, RunReturns, HostOutcomes, RunDetermined, F.IsOrdering, Sort, IdKey;
    var a, b := runs[i := run], runs[i := run'];
    assert HostRuns(outgoing, hosts[i], answers(i), runs[i]);
    assert Runs(outgoing, hosts, answers, a) && Runs(outgoing, hosts, answers, b);
    var arrival := AnyOrdering(|hosts|);
    var steps, t, remote := RunFor(Reports(a), arrival);
    var steps', t', remote' := RunFor(Reports(b), arrival);
    DeterminedMeans(outgoing, hosts, answers, a, steps, t, remote, b, steps', t', remote');
    IdsAreHostIds(outgoing, hosts, answers, a);
    IdsAreHostIds(outgoing, hosts, answers, b);
    RunOrder(Reports(a), steps, t, remote);
    RunOrder(Reports(b), steps', t', remote');
    var order := Sort(IdKey(HostIds(hosts)), arrival);
    var k := PlaceOf(|hosts|, IdKey(HostIds(hosts)), arrival, i);
    assert At(Reports(a), order)[k] == run.report && At(Reports(b), order)[k] == run'.report;
  }

  lemma DeterminedMeans(outgoing: seq<OutgoingNic>, hosts: seq<CheckHost>, answers: nat -> nat -> Answer,
                        runs: seq<HostRun>, steps: seq<F.Step>, t: F.State, remote: seq<HostReport>,
                        runs': seq<HostRun>, steps': seq<F.Step>, t': F.State, remote': seq<HostReport>)
    requires RunDetermined(outgoing, hosts, answers)
    requires Returns(outgoing, hosts, answers, runs, steps, t, remote)
    requires Returns(outgoing, hosts, answers, runs', steps', t', remote')
    ensures remote == remote'
  {
  }

  lemma AnyOrdering(n: nat) returns (order: seq<nat>)
    ensures F.IsOrdering(RunConfig(n), order)
  {
    order := Listing(F.Senders(RunConfig(n)));
  }

  lemma PlaceOf(n: nat, key: nat -> string, arrival: seq<nat>, i: nat) returns (k: nat)
    requires F.IsOrdering(RunConfig(n), arrival) && i < n
    ensures k < |Sort(key, arrival)| && Sort(key, arrival)[k] == i
  {
    hide Sort;
    SortedOrdering(RunConfig(n), key, arrival);
    assert i in F.Senders(RunConfig(n));
    assert i in Sort(key, arrival);
    k :| 0 <= k < |Sort(key, arrival)| && Sort(key, arrival)[k] == i;
  }

  /** If the answer is determined, hosts with one identifier have one report. */
  lemma DeterminedTwins(outgoing: seq<OutgoingNic>, hosts: seq<CheckHost>, answers: nat -> nat -> Answer,
                        runs: seq<HostRun>, i: nat, j: nat)
    requires RunDetermined(outgoing, hosts, answers) && Runs(outgoing, hosts, answers, runs)
    requires i < |hosts| && j < |hosts| && hosts[i].hostId == hosts[j].hostId
    ensures runs[i].report == runs[j].report
  {
    hide HostRuns, RunDetermined, F.IsOrdering, F.Reaches, SortedGather;
    var reports := Reports(runs);
    var c, parts := RunConfig(|reports|), Singles(reports);
    forall order, order' | F.IsOrdering(c, order) && F.IsOrdering(c, order')
      ensures SameSorted(c, HostKey, parts, order, order')
    {
      var steps, t, remote := RunFor(reports, order);
      var steps', t', remote' := RunFor(reports, order');
      DeterminedMeans(outgoing, hosts, answers, runs, steps, t, remote, runs, steps', t', remote');
    }
    assert Determined(c, HostKey, parts);
    DeterminedIff(c, HostKey, parts);
    IdsAreHostIds(outgoing, hosts, answers, runs);
    assert IdsOf(reports)[i] == HostIds(hosts)[i] && IdsOf(reports)[j] == HostIds(hosts)[j];
    SendersAre(|reports|, i);
    SendersAre(|reports|, j);
    assert reports[i] in parts[i] && reports[j] in parts[j];
    assert HostKey(reports[i]) == HostKey(reports[j]);
  }

  lemma SendersAre(n: nat, i: nat)
    requires i < n
    ensures i in F.Senders(RunConfig(n))
  {
  }

  lemma AlwaysTieFreeDecides(outgoing: seq<OutgoingNic>, hosts: seq<CheckHost>, answers: nat -> nat -> Answer)
    ensures RunDetermined(outgoing, hosts, answers) <==> AlwaysTieFree(outgoing, hosts, answers)
  {
    hide HostRuns, RunReturns, NoTiesIn;
    if AlwaysTieFree(outgoing, hosts, answers) {
      forall runs, steps, t, remote, runs', steps', t', remote' |
        Returns(outgoing, hosts, answers, runs, steps, t, remote)
          && Returns(outgoing, hosts, answers, runs', steps', t', remote')
        ensures remote == remote'
      {
        TieFreeReturnsOne(outgoing, hosts, answers, runs, steps, t, remote, runs', steps', t', remote');
      }
    }
    if RunDetermined(outgoing, hosts, answers) {
      forall runs | Runs(outgoing, hosts, answers, runs)
        ensures TieFreeRuns(hosts, runs)
      {
        DeterminedTieFree(outgoing, hosts, answers, runs);
      }
    }
  }

  lemma DeterminedTieFree(outgoing: seq<OutgoingNic>, hosts: seq<CheckHost>, answers: nat -> nat -> Answer,
                          runs: seq<HostRun>)
    requires RunDetermined(outgoing, hosts, answers) && Runs(outgoing, hosts, answers, runs)
    ensures TieFreeRuns(hosts, runs)
  {
    hide RunDetermined, HostRuns, NoTiesIn;
    forall i | 0 <= i < |hosts|
      ensures NoTiesIn(runs[i].outcomes)
    {
      DeterminedHost(outgoing, hosts, answers, runs, i);
    }
    forall i, j | 0 <= i < |hosts| && 0 <= j < |hosts| && hosts[i].hostId == hosts[j].hostId
      ensures runs[i].report == runs[j].report
    {
      DeterminedTwins(outgoing, hosts, answers, runs, i, j);
    }
  }

  /** The condition on what the checks find, with no schedule in it: no host has two different entries
      with one sort key, and hosts with one identifier have the same entries. */
  ghost predicate NoTiesFound(outgoing: seq<OutgoingNic>, hosts: seq<CheckHost>, answers: nat -> nat -> Answer) {
    && (forall i, o | 0 <= i < |hosts| && HostOutcomes(outgoing, hosts[i], answers(i), o) :: NoTiesIn(o))
    && (forall i, j, o, o' |
          && 0 <= i < |hosts| && 0 <= j < |hosts| && hosts[i].hostId == hosts[j].hostId
          && HostOutcomes(outgoing, hosts[i], answers(i), o) && HostOutcomes(outgoing, hosts[j], answers(j), o') ::
          SameEntries(o, o'))
  }

  lemma HostRunWith(outgoing: seq<OutgoingNic>, host: CheckHost, answers: nat -> Answer, outcomes: Outcomes)
    returns (run: HostRun)
    requires HostOutcomes(outgoing, host, answers, outcomes)
    ensures HostRuns(outgoing, host, answers, run) && run.outcomes == outcomes
  {
    hide HostOutcomes, Finishes, ReportOf, L2Parts, HostConfig, F.Senders;
    var order := Listing(F.Senders(HostConfig(outcomes)));
    var steps, t, r := ScheduleFor(host.hostId, outcomes, order);
    run := HostRun(outcomes, steps, t, r);
  }

  /** Runs in which hosts i and j go the given ways. */
  lemma RunsWith(outgoing: seq<OutgoingNic>, hosts: seq<CheckHost>, answers: nat -> nat -> Answer,
                 i: nat, run: HostRun, j: nat, run': HostRun) returns (runs: seq<HostRun>)
    requires i < |hosts| && HostRuns(outgoing, hosts[i], answers(i), run)
    requires j < |hosts| && HostRuns(outgoing, hosts[j], answers(j), run') && (i == j ==> run == run')
    ensures Runs(outgoing, hosts, answers, runs) && runs[i] == run && runs[j] == run'
  {
    hide HostRuns;
    runs := RunsExist(outgoing, hosts, answers, |hosts|);
    runs := runs[i := run][j := run'];
  }

  lemma OneReportOneEntries(host: CheckHost, host': CheckHost, run: HostRun, run': HostRun)
    requires Finishes(host.hostId, run.outcomes, run.steps, run.t, run.report)
    requires Finishes(host'.hostId, run'.outcomes, run'.steps, run'.t, run'.report)
    requires run.report == run'.report
    ensures SameEntries(run.outcomes, run'.outcomes)
  {
    hide Finishes, Flat;
    ReportEntries(host.hostId, run.outcomes, run.steps, run.t, run.report);
    ReportEntries(host'.hostId, run'.outcomes, run'.steps, run'.t, run'.report);
  }

  lemma TieFreeIsFound(outgoing: seq<OutgoingNic>, hosts: seq<CheckHost>, answers: nat -> nat -> Answer)
    requires AlwaysTieFree(outgoing, hosts, answers)
    ensures NoTiesFound(outgoing, hosts, answers)
  {
    hide HostOutcomes, Finishes, NoTiesIn, SameEntries, Runs;
    forall i, o | 0 <= i < |hosts| && HostOutcomes(outgoing, hosts[i], answers(i), o)
      ensures NoTiesIn(o)
    {
      var run := HostRunWith(outgoing, hosts[i], answers(i), o);
      var runs := RunsWith(outgoing, hosts, answers, i, run, i, run);
      TieFreeMeans(outgoing, hosts, answers, runs, i, i);
    }
    forall i, j, o, o' |
      && 0 <= i < |hosts| && 0 <= j < |hosts| && hosts[i].hostId == hosts[j].hostId
      && HostOutcomes(outgoing, hosts[i], answers(i), o) && HostOutcomes(outgoing, hosts[j], answers(j), o')
      ensures SameEntries(o, o')
    {
      TwinsFound(outgoing, hosts, answers, i, j, o, o');
    }
  }

  lemma TieFreeMeans(outgoing: seq<OutgoingNic>, hosts: seq<CheckHost>, answers: nat -> nat -> Answer,
                     runs: seq<HostRun>, i: nat, j: nat)
    requires AlwaysTieFree(outgoing, hosts, answers) && Runs(outgoing, hosts, answers, runs)
    requires i < |hosts| && j < |hosts| && hosts[i].hostId == hosts[j].hostId
    ensures |runs| == |hosts| && NoTiesIn(runs[i].outcomes) && runs[i].report == runs[j].report
  {
  }

  lemma TwinsFound(outgoing: seq<OutgoingNic>, hosts: seq<CheckHost>, answers: nat -> nat -> Answer,
                   i: nat, j: nat, o: Outcomes, o': Outcomes)
    requires AlwaysTieFree(outgoing, hosts, answers)
    requires i < |hosts| && j < |hosts| && hosts[i].hostId == hosts[j].hostId
    requires HostOutcomes(outgoing, hosts[i], answers(i), o) && HostOutcomes(outgoing, hosts[j], answers(j), o')
    ensures SameEntries(o, o')
  {
    hide HostOutcomes, Finishes, NoTiesIn, SameEntries, AlwaysTieFree;
    var run := HostRunWith(outgoing, hosts[i], answers(i), o);
    var run' := HostRunWith(outgoing, hosts[j], answers(j), o');
    if i == j {
      var runs := RunsWith(outgoing, hosts, answers, i, run, i, run);
      TieFreeMeans(outgoing, hosts, answers, runs, i, i);
      HostRunsAgree(outgoing, hosts[i], answers(i), run, run');
    } else {
      var runs := RunsWith(outgoing, hosts, answers, i, run, j, run');
      TieFreeMeans(outgoing, hosts, answers, runs, i, j);
    }
    OneReportOneEntries(hosts[i], hosts[j], run, run');
  }

  lemma FoundIsTieFree(outgoing: seq<OutgoingNic>, hosts: seq<CheckHost>, answers: nat -> nat -> Answer)
    requires NoTiesFound(outgoing, hosts, answers)
    ensures AlwaysTieFree(outgoing, hosts, answers)
  {
    hide HostOutcomes, Finishes, NoTiesIn, SameEntries;
    forall runs: seq<HostRun> | Runs(outgoing, hosts, answers, runs)
      ensures TieFreeRuns(hosts, runs)
    {
      assert forall i | 0 <= i < |hosts| :: HostRuns(outgoing, hosts[i], answers(i), runs[i]);
      forall i, j | 0 <= i < |hosts| && 0 <= j < |hosts| && hosts[i].hostId == hosts[j].hostId
        ensures runs[i].report == runs[j].report
      {
        var a, b := runs[i], runs[j];
        EntriesDecide(hosts[i].hostId, a.outcomes, b.outcomes, a.steps, a.t, a.report, b.steps, b.t, b.report);
      }
    }
  }

  /** The answer of the whole check is the same for every schedule, of every host and over the hosts,
      exactly if what the checks find has no ties. */
  lemma RunDeterminedIff(outgoing: seq<OutgoingNic>, hosts: seq<CheckHost>, answers: nat -> nat -> Answer)
    ensures RunDetermined(outgoing, hosts, answers) <==> NoTiesFound(outgoing, hosts, answers)
  {
    hide RunDetermined, NoTiesFound, AlwaysTieFree;
    AlwaysTieFreeDecides(outgoing, hosts, answers);
    if AlwaysTieFree(outgoing, hosts, answers) { TieFreeIsFound(outgoing, hosts, answers); }
    if NoTiesFound(outgoing, hosts, answers) { FoundIsTieFree(outgoing, hosts, answers); }
  }
}
