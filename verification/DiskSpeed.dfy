/** The disk speed check: several fio jobs run at once, the check waits for all of them, then drains
    the channel they answered into and keeps the worst latency.
 */
module DiskSpeed {
  import opened Common
  import F = FanIn

  datatype Response = Ok(latency: int) | Err(message: string)
  datatype Verdict = Measured(latency: int) | Failed(message: string)

  const NUM_OF_FIO_JOBS := 2

  /** The greatest latency of the successful responses, and -1 if none exceeds it. */
  ghost predicate IsWorst(rs: seq<Response>, worst: int) {
    && worst >= -1
    && (forall r | r in rs && r.Ok? :: r.latency <= worst)
    && (worst == -1 || Ok(worst) in rs)
  }

  /** The message of the last failure to arrive, empty if there was none. */
  function LastError(rs: seq<Response>): string {
    if rs == [] then ""
    else if rs[|rs| - 1].Err? then rs[|rs| - 1].message
    else LastError(rs[..|rs| - 1])
  }

  lemma {:induction false} LastErrorIs(rs: seq<Response>)
    ensures (forall i | 0 <= i < |rs| :: rs[i].Ok?) ==> LastError(rs) == ""
    ensures forall i | 0 <= i < |rs| && rs[i].Err? && (forall j | i < j < |rs| :: rs[j].Ok?) ::
              LastError(rs) == rs[i].message
  {
    if rs != [] { LastErrorIs(rs[..|rs| - 1]); }
  }

  /** The worst latency, or the last error if no latency counts. */
  ghost predicate Judged(rs: seq<Response>, verdict: Verdict) {
    match verdict
    case Measured(latency) => latency != -1 && IsWorst(rs, latency)
    case Failed(message) => IsWorst(rs, -1) && message == LastError(rs)
  }

  method Drain(rs: seq<Response>) returns (verdict: Verdict)
    ensures Judged(rs, verdict)
  {
    var maxLatency, errMsg := -1, "";
    for i := 0 to |rs|
      invariant IsWorst(rs[..i], maxLatency)
      invariant errMsg == LastError(rs[..i])
    {
      assert rs[..i + 1][..i] == rs[..i];
      assert rs[..i + 1] == rs[..i] + [rs[i]];
      match rs[i]
      case Err(message) => errMsg := message;
      case Ok(latency) =>
        if latency > maxLatency {
          maxLatency := latency;
        }
    }
    assert rs[..|rs|] == rs;
    verdict := if maxLatency == -1 then Failed(errMsg) else Measured(maxLatency);
  }

  /** The worst latency is determined by which responses came, not by their order. */
  lemma WorstUnique(rs: seq<Response>, rs': seq<Response>, worst: int, worst': int)
    requires forall r :: r in rs <==> r in rs'
    requires IsWorst(rs, worst) && IsWorst(rs', worst')
    ensures worst == worst'
  {
    assert worst != -1 ==> Ok(worst) in rs';
    assert worst' != -1 ==> Ok(worst') in rs;
  }

  // ----- the jobs -----

  function JobConfig(jobs: nat, capacity: nat): (c: F.Config)
    ensures |c.sends| == jobs && forall i | 0 <= i < jobs :: c.sends[i]
  {
    F.Config(seq(jobs, _ => true), capacity, F.AfterClose)
  }

  /** Waiting before draining blocks no schedule exactly when the channel has room for every job. */
  lemma WaitingIsSafeIff(jobs: nat, capacity: nat)
    ensures F.NeverBlocks(JobConfig(jobs, capacity)) <==> jobs <= capacity
  {
    var c := JobConfig(jobs, capacity);
    assert F.Senders(c) == F.Ids(jobs);
    F.WaitThenDrainBlocksIff(c);
  }

  /** The check gives the channel room for as many responses as it starts jobs, so it never blocks. */
  lemma FioJobsNeverBlock()
    ensures F.NeverBlocks(JobConfig(NUM_OF_FIO_JOBS, NUM_OF_FIO_JOBS))
  {
    WaitingIsSafeIff(NUM_OF_FIO_JOBS, NUM_OF_FIO_JOBS);
  }

  /** Whatever order the jobs complete in, the check measures the greatest latency any of them
      measured; it fails exactly when no job succeeded with a latency of at least zero. */
  lemma WorstOfAllJobs(results: seq<Response>, capacity: nat, steps: seq<F.Step>, t: F.State, worst: int)
    requires F.Reaches(JobConfig(|results|, capacity), steps, t) && t.finished
    ensures InRange(results, t.received) && |t.received| == |results|
    ensures IsWorst(At(results, t.received), worst) <==> IsWorst(results, worst)
    ensures IsWorst(results, worst) ==> (worst == -1 <==> forall r | r in results && r.Ok? :: r.latency < 0)
  {
    var c := JobConfig(|results|, capacity);
    F.RunsAreSafe(c, steps, t);
    assert F.Senders(c) == F.Ids(|results|);
    F.Cardinality(t.received, F.Senders(c));
    assert InRange(results, t.received) by {
      forall k | 0 <= k < |t.received|
        ensures t.received[k] < |results|
      {
        assert t.received[k] in t.received;
      }
    }
    var rs := At(results, t.received);
    forall r
      ensures r in rs <==> r in results
    {
      if r in results {
        var i :| 0 <= i < |results| && results[i] == r;
        assert i in t.received;
        var k :| 0 <= k < |t.received| && t.received[k] == i;
        assert rs[k] == r;
      }
    }
  }

  /** With non-negative latencies, failure means that every job failed. */
  lemma FailsIffAllFailed(results: seq<Response>, worst: int)
    requires IsWorst(results, worst)
    requires forall r | r in results && r.Ok? :: r.latency >= 0
    ensures worst == -1 <==> forall i | 0 <= i < |results| :: results[i].Err?
  {
    if worst == -1 {
      forall i | 0 <= i < |results|
        ensures results[i].Err?
      {
        assert results[i] in results;
      }
    }
  }

  /** A finished check with the verdict it reaches. */
  ghost predicate Concludes(results: seq<Response>, capacity: nat, steps: seq<F.Step>, t: F.State, verdict: Verdict) {
    && F.Reaches(JobConfig(|results|, capacity), steps, t) && t.finished
    && InRange(results, t.received) && Judged(At(results, t.received), verdict)
  }

  /** For every completion order, with non-negative latencies: the verdict is the greatest latency that
      any job measured, and an error exactly when every job failed. */
  lemma VerdictIs(results: seq<Response>, capacity: nat, steps: seq<F.Step>, t: F.State, verdict: Verdict)
    requires Concludes(results, capacity, steps, t, verdict)
    requires forall r | r in results && r.Ok? :: r.latency >= 0
    ensures |t.received| == |results|
    ensures verdict.Failed? <==> forall i | 0 <= i < |results| :: results[i].Err?
    ensures verdict.Failed? && results != [] ==> results[t.received[|results| - 1]] == Err(verdict.message)
    ensures verdict.Failed? && results == [] ==> verdict.message == ""
    ensures verdict.Measured? ==>
              Ok(verdict.latency) in results && forall r | r in results && r.Ok? :: r.latency <= verdict.latency
  {
    hide F.Reaches;
    var worst := if verdict.Measured? then verdict.latency else -1;
    WorstOfAllJobs(results, capacity, steps, t, worst);
    FailsIffAllFailed(results, worst);
    LastErrorIs(At(results, t.received));
  }

  /** Any two completion orders reach the same verdict, up to which error is named. */
  lemma VerdictsAgree(results: seq<Response>, capacity: nat, steps: seq<F.Step>, t: F.State, verdict: Verdict,
                      steps': seq<F.Step>, t': F.State, verdict': Verdict)
    requires Concludes(results, capacity, steps, t, verdict)
    requires Concludes(results, capacity, steps', t', verdict')
    ensures verdict == verdict' || (verdict.Failed? && verdict'.Failed?)
  {
    hide F.Reaches;
    var worst := if verdict.Measured? then verdict.latency else -1;
    var worst' := if verdict'.Measured? then verdict'.latency else -1;
    WorstOfAllJobs(results, capacity, steps, t, worst);
    WorstOfAllJobs(results, capacity, steps', t', worst');
    WorstUnique(results, results, worst, worst');
  }
}
