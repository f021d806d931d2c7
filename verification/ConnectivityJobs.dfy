/** Which checks the connectivity runner starts for one host. */
module ConnectivityJobs {
  import opened Common

  datatype Nic = Nic(mac: string, ipAddresses: seq<string>)
  datatype CheckHost = CheckHost(hostId: string, nics: seq<Nic>)
  datatype OutgoingNic = OutgoingNic(name: string, mtu: int, hasIpv4: bool, hasIpv6: bool, addresses: seq<string>)

  /** What one check is given; checks that do not ask for an outgoing NIC get none. */
  datatype Attributes = Attributes(
    remoteIp: string, remoteMac: string, outgoing: Option<OutgoingNic>, remoteMacs: seq<string>)

  datatype Checker = Checker(name: string, wantsOutgoingNic: bool)
  datatype Job = Job(attributes: Attributes, checker: Checker)

  /** The address part of a CIDR: the text before the first slash. */
  function AddressOf(cidr: string): string {
    if cidr == [] || cidr[0] == '/' then [] else [cidr[0]] + AddressOf(cidr[1..])
  }

  function Macs(nics: seq<Nic>): seq<string> {
    if nics == [] then [] else Macs(nics[..|nics| - 1]) + [nics[|nics| - 1].mac]
  }

  /** The address is all of the text, or what stands before its first slash. */
  lemma {:induction false} AddressOfIs(cidr: string)
    ensures AddressOf(cidr) <= cidr && '/' !in AddressOf(cidr)
    ensures AddressOf(cidr) == cidr || cidr[|AddressOf(cidr)|] == '/'
  {
    if cidr != [] && cidr[0] != '/' {
      AddressOfIs(cidr[1..]);
      assert cidr == [cidr[0]] + cidr[1..];
    }
  }

  lemma {:induction false} MacsAre(nics: seq<Nic>)
    ensures |Macs(nics)| == |nics| && forall i | 0 <= i < |nics| :: Macs(nics)[i] == nics[i].mac
  {
    if nics != [] { MacsAre(nics[..|nics| - 1]); }
  }

  // ----- the nested loops, as functions -----

  function JobsOf(checkers: seq<Checker>, wanting: bool, attributes: Attributes): seq<Job> {
    if checkers == [] then []
    else
      var last := checkers[|checkers| - 1];
      JobsOf(checkers[..|checkers| - 1], wanting, attributes)
      + if last.wantsOutgoingNic == wanting then [Job(attributes, last)] else []
  }

  function OutgoingJobs(checkers: seq<Checker>, outgoing: seq<OutgoingNic>, base: Attributes): seq<Job> {
    if outgoing == [] then []
    else
      var n := |outgoing| - 1;
      OutgoingJobs(checkers, outgoing[..n], base)
      + JobsOf(checkers, true, base.(outgoing := Some(outgoing[n])))
  }

  function AddressJobs(checkers: seq<Checker>, outgoing: seq<OutgoingNic>, cidr: string, mac: string, macs: seq<string>)
    : seq<Job>
  {
    if AddressOf(cidr) == "" then []
    else
      var base := Attributes(AddressOf(cidr), mac, None, macs);
      OutgoingJobs(checkers, outgoing, base) + JobsOf(checkers, false, base)
  }

  function NicJobs(checkers: seq<Checker>, outgoing: seq<OutgoingNic>, cidrs: seq<string>, mac: string,
                   macs: seq<string>)
    : seq<Job>
  {
    if cidrs == [] then []
    else
      var n := |cidrs| - 1;
      NicJobs(checkers, outgoing, cidrs[..n], mac, macs) + AddressJobs(checkers, outgoing, cidrs[n], mac, macs)
  }

  function HostJobs(checkers: seq<Checker>, outgoing: seq<OutgoingNic>, nics: seq<Nic>, macs: seq<string>): seq<Job> {
    if nics == [] then []
    else
      var n := |nics| - 1;
      HostJobs(checkers, outgoing, nics[..n], macs)
      + NicJobs(checkers, outgoing, nics[n].ipAddresses, nics[n].mac, macs)
  }

  // ----- the nested loops -----

  method SpawnCheckers(checkers: seq<Checker>, wanting: bool, attributes: Attributes) returns (jobs: seq<Job>)
    ensures jobs == JobsOf(checkers, wanting, attributes)
  {
    jobs := [];
    for i := 0 to |checkers|
      invariant jobs == JobsOf(checkers[..i], wanting, attributes)
    {
      assert checkers[..i + 1][..i] == checkers[..i];
      if checkers[i].wantsOutgoingNic == wanting {
        jobs := jobs + [Job(attributes, checkers[i])];
      }
    }
    assert checkers[..|checkers|] == checkers;
  }

  method SpawnForAddress(checkers: seq<Checker>, outgoing: seq<OutgoingNic>, cidr: string, mac: string,
                         macs: seq<string>)
    returns (jobs: seq<Job>)
    ensures jobs == AddressJobs(checkers, outgoing, cidr, mac, macs)
  {
    hide JobsOf;
    jobs := [];
    if AddressOf(cidr) == "" {
      return;
    }
    var base := Attributes(AddressOf(cidr), mac, None, macs);
    for i := 0 to |outgoing|
      invariant jobs == OutgoingJobs(checkers, outgoing[..i], base)
    {
      assert outgoing[..i + 1][..i] == outgoing[..i];
      var more := SpawnCheckers(checkers, true, base.(outgoing := Some(outgoing[i])));
      jobs := jobs + more;
    }
    assert outgoing[..|outgoing|] == outgoing;
    var more := SpawnCheckers(checkers, false, base);
    jobs := jobs + more;
  }

  method SpawnForHost(checkers: seq<Checker>, outgoing: seq<OutgoingNic>, host: CheckHost) returns (jobs: seq<Job>)
    ensures jobs == HostJobs(checkers, outgoing, host.nics, Macs(host.nics))
  {
    hide AddressJobs;
    jobs := [];
    var macs := Macs(host.nics);
    for i := 0 to |host.nics|
      invariant jobs == HostJobs(checkers, outgoing, host.nics[..i], macs)
    {
      assert host.nics[..i + 1][..i] == host.nics[..i];
      var nic := host.nics[i];
      ghost var before := jobs;
      for j := 0 to |nic.ipAddresses|
        invariant jobs == before + NicJobs(checkers, outgoing, nic.ipAddresses[..j], nic.mac, macs)
      {
        assert nic.ipAddresses[..j + 1][..j] == nic.ipAddresses[..j];
        var more := SpawnForAddress(checkers, outgoing, nic.ipAddresses[j], nic.mac, macs);
        jobs := jobs + more;
      }
      assert nic.ipAddresses[..|nic.ipAddresses|] == nic.ipAddresses;
    }
    assert host.nics[..|host.nics|] == host.nics;
  }

  // ----- which checks those are -----

  /** A check of a known remote address by a known checker, through an outgoing NIC if and only if
      the checker wants one. */
  ghost predicate Wanted(checkers: seq<Checker>, outgoing: seq<OutgoingNic>, job: Job) {
    && job.checker in checkers
    && match job.attributes.outgoing
       case Some(nic) => job.checker.wantsOutgoingNic && nic in outgoing
       case None => !job.checker.wantsOutgoingNic
  }

  ghost predicate Addressed(cidr: string, mac: string, macs: seq<string>, job: Job) {
    && job.attributes.remoteIp == AddressOf(cidr) != ""
    && job.attributes.remoteMac == mac
    && job.attributes.remoteMacs == macs
  }

  lemma {:induction false} JobsOfIff(checkers: seq<Checker>, wanting: bool, attributes: Attributes, job: Job)
    ensures job in JobsOf(checkers, wanting, attributes) <==>
            job.attributes == attributes && job.checker in checkers && job.checker.wantsOutgoingNic == wanting
  {
    if checkers != [] {
      var n := |checkers| - 1;
      assert checkers == checkers[..n] + [checkers[n]];
      JobsOfIff(checkers[..n], wanting, attributes, job);
    }
  }

  lemma {:induction false} OutgoingJobsIff(checkers: seq<Checker>, outgoing: seq<OutgoingNic>, base: Attributes,
                                           job: Job)
    requires base.outgoing.None?
    ensures job in OutgoingJobs(checkers, outgoing, base) <==>
            && job.attributes.outgoing.Some? && job.attributes.outgoing.value in outgoing
            && job.attributes.(outgoing := None) == base
            && job.checker in checkers && job.checker.wantsOutgoingNic
  {
    hide JobsOf;
    if outgoing != [] {
      var n := |outgoing| - 1;
      assert outgoing == outgoing[..n] + [outgoing[n]];
      OutgoingJobsIff(checkers, outgoing[..n], base, job);
      JobsOfIff(checkers, true, base.(outgoing := Some(outgoing[n])), job);
    }
  }

  lemma AddressJobsIff(checkers: seq<Checker>, outgoing: seq<OutgoingNic>, cidr: string, mac: string,
                       macs: seq<string>, job: Job)
    ensures job in AddressJobs(checkers, outgoing, cidr, mac, macs) <==>
            Addressed(cidr, mac, macs, job) && Wanted(checkers, outgoing, job)
  {
    var base := Attributes(AddressOf(cidr), mac, None, macs);
    OutgoingJobsIff(checkers, outgoing, base, job);
    JobsOfIff(checkers, false, base, job);
  }

  lemma {:induction false} NicJobsIff(checkers: seq<Checker>, outgoing: seq<OutgoingNic>, cidrs: seq<string>,
                                      mac: string, macs: seq<string>, job: Job)
    ensures job in NicJobs(checkers, outgoing, cidrs, mac, macs) <==>
            && (exists j :: 0 <= j < |cidrs| && Addressed(cidrs[j], mac, macs, job))
            && Wanted(checkers, outgoing, job)
  {
    hide AddressJobs, Wanted, Addressed;
    if cidrs != [] {
      var n := |cidrs| - 1;
      assert cidrs == cidrs[..n] + [cidrs[n]];
      NicJobsIff(checkers, outgoing, cidrs[..n], mac, macs, job);
      AddressJobsIff(checkers, outgoing, cidrs[n], mac, macs, job);
      assert forall j | 0 <= j < n :: cidrs[..n][j] == cidrs[j];
    }
  }

  ghost predicate OfNic(nic: Nic, macs: seq<string>, job: Job) {
    exists j :: 0 <= j < |nic.ipAddresses| && Addressed(nic.ipAddresses[j], nic.mac, macs, job)
  }

  /** The checks started for a host are those of its non-empty addresses by all checkers, once per
      outgoing NIC for the checkers that want one. */
  lemma {:induction false} HostJobsIff(checkers: seq<Checker>, outgoing: seq<OutgoingNic>, nics: seq<Nic>,
                                       macs: seq<string>, job: Job)
    ensures job in HostJobs(checkers, outgoing, nics, macs) <==>
            (exists i :: 0 <= i < |nics| && OfNic(nics[i], macs, job)) && Wanted(checkers, outgoing, job)
  {
    hide NicJobs, Wanted, Addressed;
    if nics != [] {
      var n := |nics| - 1;
      assert nics == nics[..n] + [nics[n]];
      HostJobsIff(checkers, outgoing, nics[..n], macs, job);
      NicJobsIff(checkers, outgoing, nics[n].ipAddresses, nics[n].mac, macs, job);
      assert forall i | 0 <= i < n :: nics[..n][i] == nics[i];
    }
  }

  function CountWanting(checkers: seq<Checker>, wanting: bool): nat {
    if checkers == [] then 0
    else CountWanting(checkers[..|checkers| - 1], wanting)
         + if checkers[|checkers| - 1].wantsOutgoingNic == wanting then 1 else 0
  }

  function PerAddress(checkers: seq<Checker>, outgoing: seq<OutgoingNic>): nat {
    |outgoing| * CountWanting(checkers, true) + CountWanting(checkers, false)
  }

  function CountAddresses(cidrs: seq<string>): nat {
    if cidrs == [] then 0
    else CountAddresses(cidrs[..|cidrs| - 1]) + if AddressOf(cidrs[|cidrs| - 1]) == "" then 0 else 1
  }

  lemma {:induction false} JobsOfCount(checkers: seq<Checker>, wanting: bool, attributes: Attributes)
    ensures |JobsOf(checkers, wanting, attributes)| == CountWanting(checkers, wanting)
  {
    if checkers != [] { JobsOfCount(checkers[..|checkers| - 1], wanting, attributes); }
  }

  lemma {:induction false} OutgoingJobsCount(checkers: seq<Checker>, outgoing: seq<OutgoingNic>, base: Attributes)
    ensures |OutgoingJobs(checkers, outgoing, base)| == |outgoing| * CountWanting(checkers, true)
  {
    hide JobsOf, CountWanting;
    if outgoing != [] {
      var n := |outgoing| - 1;
      OutgoingJobsCount(checkers, outgoing[..n], base);
      JobsOfCount(checkers, true, base.(outgoing := Some(outgoing[n])));
      assert |outgoing| * CountWanting(checkers, true)
        == n * CountWanting(checkers, true) + CountWanting(checkers, true);
    }
  }

  /** Every non-empty address of a NIC is checked the same number of times. */
  lemma {:induction false} NicJobsCount(checkers: seq<Checker>, outgoing: seq<OutgoingNic>, cidrs: seq<string>,
                                        mac: string, macs: seq<string>)
    ensures |NicJobs(checkers, outgoing, cidrs, mac, macs)| == CountAddresses(cidrs) * PerAddress(checkers, outgoing)
  {
    hide OutgoingJobs, JobsOf, CountWanting;
    if cidrs != [] {
      var n := |cidrs| - 1;
      var per := PerAddress(checkers, outgoing);
      NicJobsCount(checkers, outgoing, cidrs[..n], mac, macs);
      var base := Attributes(AddressOf(cidrs[n]), mac, None, macs);
      OutgoingJobsCount(checkers, outgoing, base);
      JobsOfCount(checkers, false, base);
      hide PerAddress;
      assert (CountAddresses(cidrs[..n]) + 1) * per == CountAddresses(cidrs[..n]) * per + per;
    }
  }

  function CountAllAddresses(nics: seq<Nic>): nat {
    if nics == [] then 0
    else CountAllAddresses(nics[..|nics| - 1]) + CountAddresses(nics[|nics| - 1].ipAddresses)
  }

  /** So is every non-empty address of a host: no check is started twice or left out. */
  lemma {:induction false} HostJobsCount(checkers: seq<Checker>, outgoing: seq<OutgoingNic>, nics: seq<Nic>,
                                         macs: seq<string>)
    ensures |HostJobs(checkers, outgoing, nics, macs)| == CountAllAddresses(nics) * PerAddress(checkers, outgoing)
  {
    hide NicJobs, CountAddresses, PerAddress;
    if nics != [] {
      var n := |nics| - 1;
      HostJobsCount(checkers, outgoing, nics[..n], macs);
      NicJobsCount(checkers, outgoing, nics[n].ipAddresses, nics[n].mac, macs);
      Distribute(CountAllAddresses(nics[..n]), CountAddresses(nics[n].ipAddresses), PerAddress(checkers, outgoing));
    }
  }

  lemma Distribute(a: int, b: int, c: int)
    ensures (a + b) * c == a * c + b * c
  {
  }
}
