/** Fan-out and fan-in over a bounded channel, as a small-step transition system.

    One goroutine per job computes a result and, unless the result is empty, sends it into a channel
    of fixed capacity; one collector receives. Three programs of the agent have this shape and
    differ in how the collector knows it is done:

    - `UntilClosed`: a further goroutine waits for all jobs and closes the channel, while the
      collector ranges over it (one host of the connectivity check);
    - `AfterClose`: the collector itself waits for all jobs, closes the channel, and only then
      ranges over it (the disk speed check);
    - `Counted`: the collector receives as many results as there are jobs (the connectivity check
      over all hosts).

    The scheduler may take any enabled step; a run is a sequence of steps. Go's panics (a send on a
    closed channel, a negative wait-group counter) are states of the model.
 */
module FanIn {
  import opened Common

  datatype Mode = UntilClosed | AfterClose | Counted

  /** `sends[i]` tells whether job i produces a result. */
  datatype Config = Config(sends: seq<bool>, capacity: nat, mode: Mode)

  datatype Pc = Unspawned | Checking | Sending | Leaving | Gone

  datatype State = State(
    pcs: seq<Pc>, spawned: nat, wg: int, collecting: bool,
    channel: seq<nat>, closed: bool, received: seq<nat>, finished: bool, panicked: bool)

  datatype Step = Spawn | Collect | Check(job: nat) | Send(job: nat) | Leave(job: nat) | Close | Receive | Finish

  function Init(c: Config): State {
    State(seq(|c.sends|, _ => Unspawned), 0, 0, false, [], false, [], false, false)
  }

  predicate Enabled(c: Config, s: State, step: Step) {
    var n := |c.sends|;
    && !s.panicked
    && match step
       case Spawn => !s.collecting && s.spawned < n
       case Collect => !s.collecting && s.spawned == n
       case Check(i) => i < |s.pcs| && s.pcs[i] == Checking
       case Send(i) => i < |s.pcs| && s.pcs[i] == Sending && (s.closed || |s.channel| < c.capacity)
       case Leave(i) => i < |s.pcs| && s.pcs[i] == Leaving
       case Close => s.collecting && c.mode != Counted && !s.closed && s.wg == 0
       case Receive =>
         && s.collecting && !s.finished && s.channel != []
         && (c.mode == AfterClose ==> s.closed)
         && (c.mode == Counted ==> |s.received| < n)
       case Finish =>
         && s.collecting && !s.finished
         && if c.mode == Counted then |s.received| == n else s.closed && s.channel == []
  }

  function Apply(c: Config, s: State, step: Step): State
    requires Enabled(c, s, step) && |s.pcs| == |c.sends|
  {
    match step
    case Spawn => s.(pcs := s.pcs[s.spawned := Checking], spawned := s.spawned + 1, wg := s.wg + 1)
    case Collect => s.(collecting := true)
    case Check(i) => s.(pcs := s.pcs[i := if c.sends[i] then Sending else Leaving])
    case Send(i) =>
      if s.closed then s.(panicked := true)
      else s.(pcs := s.pcs[i := Leaving], channel := s.channel + [i])
    case Leave(i) => s.(pcs := s.pcs[i := Gone], wg := s.wg - 1, panicked := s.wg - 1 < 0)
    case Close => s.(closed := true)
    case Receive => s.(channel := s.channel[1..], received := s.received + [s.channel[0]])
    case Finish => s.(finished := true)
  }

  /** A sequence of steps that can be taken one after the other from s, and the state it leads to. */
  ghost predicate Valid(c: Config, s: State, steps: seq<Step>)
    requires |s.pcs| == |c.sends|
    decreases |steps|
  {
    steps == [] || (Enabled(c, s, steps[0]) && Valid(c, Apply(c, s, steps[0]), steps[1..]))
  }

  ghost function After(c: Config, s: State, steps: seq<Step>): (t: State)
    requires |s.pcs| == |c.sends| && Valid(c, s, steps)
    ensures |t.pcs| == |c.sends|
    decreases |steps|
  {
    if steps == [] then s else After(c, Apply(c, s, steps[0]), steps[1..])
  }

  lemma {:induction false} Concatenate(c: Config, s: State, first: seq<Step>, second: seq<Step>)
    requires |s.pcs| == |c.sends| && Valid(c, s, first) && Valid(c, After(c, s, first), second)
    ensures Valid(c, s, first + second)
    ensures After(c, s, first + second) == After(c, After(c, s, first), second)
    decreases |first|
  {
    if first == [] {
      assert first + second == second;
    } else {
      Concatenate(c, Apply(c, s, first[0]), first[1..], second);
      assert (first + second)[1..] == first[1..] + second;
    }
  }

  // ----- the invariant -----

  predicate IsActive(pc: Pc) {
    pc == Checking || pc == Sending || pc == Leaving
  }

  function Active(pcs: seq<Pc>): nat {
    if pcs == [] then 0
    else Active(pcs[..|pcs| - 1]) + if IsActive(pcs[|pcs| - 1]) then 1 else 0
  }

  lemma {:induction false} ActiveUpdate(pcs: seq<Pc>, i: nat, pc: Pc)
    requires i < |pcs|
    ensures Active(pcs[i := pc]) == Active(pcs) - (if IsActive(pcs[i]) then 1 else 0) + if IsActive(pc) then 1 else 0
  {
    var n := |pcs| - 1;
    if i == n {
      assert pcs[i := pc][..n] == pcs[..n];
    } else {
      ActiveUpdate(pcs[..n], i, pc);
      assert pcs[i := pc][..n] == pcs[..n][i := pc];
    }
  }

  lemma {:induction false} NoneActive(pcs: seq<Pc>, i: nat)
    requires i < |pcs| && Active(pcs) == 0
    ensures !IsActive(pcs[i])
  {
    if i < |pcs| - 1 { NoneActive(pcs[..|pcs| - 1], i); }
  }

  lemma {:induction false} AllInactive(pcs: seq<Pc>)
    requires forall i | 0 <= i < |pcs| :: !IsActive(pcs[i])
    ensures Active(pcs) == 0
  {
    if pcs != [] { AllInactive(pcs[..|pcs| - 1]); }
  }

  /** The jobs that produce a result. */
  ghost function Senders(c: Config): set<nat> {
    set i: nat | i < |c.sends| && c.sends[i]
  }

  ghost predicate HasSent(c: Config, s: State, i: nat) {
    i < |c.sends| && i < |s.pcs| && c.sends[i] && (s.pcs[i] == Leaving || s.pcs[i] == Gone)
  }

  /** Every result is in exactly one place: not yet sent, in the channel, or received. */
  ghost predicate ExactlyOnce(c: Config, s: State) {
    && Distinct(s.received + s.channel)
    && forall i :: i in s.received + s.channel <==> HasSent(c, s, i)
  }

  ghost predicate Control(c: Config, s: State) {
    && |s.pcs| == |c.sends|
    && s.spawned <= |c.sends|
    && (forall i | 0 <= i < |s.pcs| :: s.pcs[i] == Unspawned <==> i >= s.spawned)
    && (forall i | 0 <= i < |s.pcs| :: s.pcs[i] == Sending ==> c.sends[i])
    && s.wg == Active(s.pcs)
    && (s.collecting ==> s.spawned == |c.sends|)
    && (s.closed ==> s.collecting && s.wg == 0)
    && !s.panicked
  }

  ghost predicate Inv(c: Config, s: State) {
    && Control(c, s)
    && ExactlyOnce(c, s)
    && |s.channel| <= c.capacity
    && (c.mode == AfterClose && !s.closed ==> s.received == [])
    && (c.mode == AfterClose && s.closed ==> |Senders(c)| <= c.capacity)
    && (s.finished ==> s.channel == [] && if c.mode == Counted then |s.received| == |c.sends| else s.closed)
  }

  lemma InitInv(c: Config)
    ensures Inv(c, Init(c))
  {
    AllInactive(Init(c).pcs);
  }

  lemma CardinalityBound(s: seq<nat>, bound: set<nat>)
    requires Distinct(s) && forall i | 0 <= i < |s| :: s[i] in bound
    ensures |s| <= |bound|
  {
    if s != [] {
      var n := |s| - 1;
      CardinalityBound(s[..n], bound - {s[n]});
    }
  }

  lemma Cardinality(s: seq<nat>, whole: set<nat>)
    requires Distinct(s) && forall x :: x in s <==> x in whole
    ensures |s| == |whole|
  {
    if s == [] {
      assert whole == {};
    } else {
      var n := |s| - 1;
      assert s == s[..n] + [s[n]];
      Cardinality(s[..n], whole - {s[n]});
    }
  }

  lemma ControlKept(c: Config, s: State, step: Step)
    requires Control(c, s) && Enabled(c, s, step)
    ensures Control(c, Apply(c, s, step))
  {
    match step
    case Spawn => ActiveUpdate(s.pcs, s.spawned, Checking);
    case Check(i) => ActiveUpdate(s.pcs, i, if c.sends[i] then Sending else Leaving);
    case Send(i) =>
      ActiveUpdate(s.pcs, i, Leaving);
      if s.closed { NoneActive(s.pcs, i); }
    case Leave(i) => ActiveUpdate(s.pcs, i, Gone);
    case _ =>
  }

  lemma ExactlyOnceKept(c: Config, s: State, step: Step)
    requires Control(c, s) && ExactlyOnce(c, s) && Enabled(c, s, step)
    ensures ExactlyOnce(c, Apply(c, s, step))
  {
    var t := Apply(c, s, step);
    match step
    case Send(i) =>
      if s.closed {
        NoneActive(s.pcs, i);
      } else {
        assert t.received + t.channel == (s.received + s.channel) + [i];
        assert !HasSent(c, s, i);
        forall j
          ensures j in t.received + t.channel <==> HasSent(c, t, j)
        {
          assert j != i ==> (HasSent(c, t, j) <==> HasSent(c, s, j));
        }
      }
    case Receive =>
      assert t.received + t.channel == s.received + s.channel;
      assert forall j :: HasSent(c, t, j) <==> HasSent(c, s, j);
    case _ =>
      assert t.received + t.channel == s.received + s.channel;
      assert forall j :: HasSent(c, t, j) <==> HasSent(c, s, j);
  }

  /** Every step keeps the invariant; in particular no step panics. */
  lemma InvKept(c: Config, s: State, step: Step)
    requires Inv(c, s) && Enabled(c, s, step)
    ensures Inv(c, Apply(c, s, step))
  {
    ControlKept(c, s, step);
    ExactlyOnceKept(c, s, step);
    var t := Apply(c, s, step);
    match step
    case Send(i) =>
      if s.closed { NoneActive(s.pcs, i); }
      SenderNotFinished(c, s, i);
    case Close =>
      if c.mode == AfterClose {
        AllSent(c, s);
        assert s.received + s.channel == s.channel;
        Cardinality(s.channel, Senders(c));
      }
    case Finish =>
      if c.mode == Counted {
        DeliveredBound(c, s);
      }
    case _ =>
  }

  lemma SenderNotFinished(c: Config, s: State, i: nat)
    requires Inv(c, s) && i < |s.pcs| && s.pcs[i] == Sending
    ensures !s.finished && !s.closed
    ensures |s.received| + |s.channel| < |Senders(c)| <= |c.sends|
  {
    if s.closed { NoneActive(s.pcs, i); }
    var d := s.received + s.channel;
    forall k | 0 <= k < |d|
      ensures d[k] in Senders(c) - {i}
    {
      assert d[k] in d;
      assert HasSent(c, s, d[k]);
    }
    CardinalityBound(d, Senders(c) - {i});
    SendersBound(c);
  }

  lemma SendersBound(c: Config)
    ensures |Senders(c)| <= |c.sends|
  {
    SubsetCardinality(Senders(c), Ids(|c.sends|));
  }

  function Ids(n: nat): (ids: set<nat>)
    ensures |ids| == n
    ensures forall i: nat :: i in ids <==> i < n
  {
    if n == 0 then {} else Ids(n - 1) + {n - 1}
  }

  lemma DeliveredBound(c: Config, s: State)
    requires ExactlyOnce(c, s)
    ensures |s.received| + |s.channel| <= |c.sends|
  {
    var d := s.received + s.channel;
    forall k | 0 <= k < |d|
      ensures d[k] in Ids(|c.sends|)
    {
      assert d[k] in d;
      assert HasSent(c, s, d[k]);
    }
    CardinalityBound(d, Ids(|c.sends|));
  }

  lemma SubsetCardinality(a: set<nat>, b: set<nat>)
    requires a <= b
    ensures |a| <= |b|
  {
    if a != {} {
      var x :| x in a;
      SubsetCardinality(a - {x}, b - {x});
    }
  }

  /** When no job is active any more, exactly the results of the senders have been sent. */
  lemma AllSent(c: Config, s: State)
    requires Control(c, s) && ExactlyOnce(c, s) && s.collecting && s.wg == 0
    ensures forall i :: i in s.received + s.channel <==> i in Senders(c)
  {
    forall i: nat | i < |s.pcs|
      ensures s.pcs[i] == Gone
    {
      NoneActive(s.pcs, i);
    }
  }

  lemma {:induction false} InvAlways(c: Config, s: State, steps: seq<Step>)
    requires Inv(c, s) && Valid(c, s, steps)
    ensures Inv(c, After(c, s, steps))
    decreases |steps|
  {
    if steps != [] {
      InvKept(c, s, steps[0]);
      InvAlways(c, Apply(c, s, steps[0]), steps[1..]);
    }
  }

  // ----- what a finished run has delivered -----

  /** An order in which all results can arrive: each sender once and nobody else. */
  ghost predicate IsOrdering(c: Config, order: seq<nat>) {
    && Distinct(order)
    && forall i :: i in order <==> i in Senders(c)
  }

  ghost predicate Reaches(c: Config, steps: seq<Step>, t: State) {
    Valid(c, Init(c), steps) && After(c, Init(c), steps) == t
  }

  /** In a counted collection every job must produce a result. */
  ghost predicate WellFormed(c: Config) {
    c.mode == Counted ==> forall i | 0 <= i < |c.sends| :: c.sends[i]
  }

  /** No run panics, and a finished run has received each result exactly once. */
  lemma RunsAreSafe(c: Config, steps: seq<Step>, t: State)
    requires WellFormed(c) && Reaches(c, steps, t)
    ensures Inv(c, t) && !t.panicked
    ensures t.finished ==> t.channel == [] && IsOrdering(c, t.received)
  {
    InitInv(c);
    InvAlways(c, Init(c), steps);
    if t.finished {
      assert t.received + t.channel == t.received;
      if c.mode == Counted {
        CountedAll(c, t);
      } else {
        AllSent(c, t);
      }
    }
  }

  lemma CountedAll(c: Config, t: State)
    requires WellFormed(c) && Inv(c, t) && c.mode == Counted && t.finished
    ensures IsOrdering(c, t.received)
  {
    var r := t.received;
    assert r + t.channel == r;
    forall k | 0 <= k < |r|
      ensures r[k] in Ids(|c.sends|)
    {
      assert r[k] in r;
      assert HasSent(c, t, r[k]);
    }
    forall i: nat | i in Senders(c)
      ensures i in r
    {
      if i !in r {
        CardinalityBound(r, Ids(|c.sends|) - {i});
      }
    }
    assert forall i :: i in r ==> HasSent(c, t, i);
  }

  // ----- progress -----

  /** The collector can keep up: somebody empties the channel, or everything fits into it. (A channel
      without a buffer is modelled only where nobody sends or nobody receives.) */
  ghost predicate Drains(c: Config) {
    if c.mode == AfterClose then |Senders(c)| <= c.capacity else c.capacity >= 1 || Senders(c) == {}
  }

  ghost predicate Stuck(c: Config, s: State) {
    forall step :: !Enabled(c, s, step)
  }

  /** While the collection is not finished, some step can be taken. */
  lemma NoDeadlock(c: Config, s: State)
    requires WellFormed(c) && Drains(c) && Inv(c, s) && !s.finished
    ensures !Stuck(c, s)
  {
    if !s.collecting {
      assert Enabled(c, s, if s.spawned < |c.sends| then Spawn else Collect);
    } else if i :| 0 <= i < |s.pcs| && s.pcs[i] == Checking {
      assert Enabled(c, s, Check(i));
    } else if i :| 0 <= i < |s.pcs| && s.pcs[i] == Leaving {
      assert Enabled(c, s, Leave(i));
    } else if i :| 0 <= i < |s.pcs| && s.pcs[i] == Sending {
      SenderNotFinished(c, s, i);
      assert Enabled(c, s, if |s.channel| < c.capacity then Send(i) else Receive);
    } else {
      AllInactive(s.pcs);
      AllSent(c, s);
      if c.mode == Counted {
        Cardinality(s.received + s.channel, Senders(c));
        assert Senders(c) == Ids(|c.sends|);
        assert Enabled(c, s, if s.channel != [] then Receive else Finish);
      } else if !s.closed {
        assert Enabled(c, s, Close);
      } else {
        assert Enabled(c, s, if s.channel != [] then Receive else Finish);
      }
    }
  }

  // ----- termination -----

  function Work(pc: Pc): nat {
    match pc
    case Unspawned => 5
    case Checking => 4
    case Sending => 3
    case Leaving => 1
    case Gone => 0
  }

  function TotalWork(pcs: seq<Pc>): nat {
    if pcs == [] then 0 else TotalWork(pcs[..|pcs| - 1]) + Work(pcs[|pcs| - 1])
  }

  lemma {:induction false} WorkUpdate(pcs: seq<Pc>, i: nat, pc: Pc)
    requires i < |pcs|
    ensures TotalWork(pcs[i := pc]) == TotalWork(pcs) - Work(pcs[i]) + Work(pc)
  {
    var n := |pcs| - 1;
    if i == n {
      assert pcs[i := pc][..n] == pcs[..n];
    } else {
      WorkUpdate(pcs[..n], i, pc);
      assert pcs[i := pc][..n] == pcs[..n][i := pc];
    }
  }

  function Remaining(s: State): nat {
    TotalWork(s.pcs) + |s.channel|
    + (if s.collecting then 0 else 1) + (if s.closed then 0 else 1) + (if s.finished then 0 else 1)
  }

  lemma StepWorks(c: Config, s: State, step: Step)
    requires Inv(c, s) && Enabled(c, s, step)
    ensures Remaining(Apply(c, s, step)) < Remaining(s)
  {
    match step
    case Spawn => WorkUpdate(s.pcs, s.spawned, Checking);
    case Check(i) => WorkUpdate(s.pcs, i, if c.sends[i] then Sending else Leaving);
    case Send(i) =>
      SenderNotFinished(c, s, i);
      WorkUpdate(s.pcs, i, Leaving);
    case Leave(i) => WorkUpdate(s.pcs, i, Gone);
    case _ =>
  }

  lemma {:induction false} RunsAreBounded(c: Config, s: State, steps: seq<Step>)
    requires Inv(c, s) && Valid(c, s, steps)
    ensures |steps| + Remaining(After(c, s, steps)) <= Remaining(s)
    decreases |steps|
  {
    if steps != [] {
      StepWorks(c, s, steps[0]);
      InvKept(c, s, steps[0]);
      RunsAreBounded(c, Apply(c, s, steps[0]), steps[1..]);
    }
  }

  lemma {:induction false} InitialWork(n: nat)
    ensures TotalWork(seq(n, _ => Unspawned)) == 5 * n
  {
    if n > 0 {
      assert seq(n, _ => Unspawned)[..n - 1] == seq(n - 1, _ => Unspawned);
      InitialWork(n - 1);
    }
  }

  /** Every run ends: no schedule takes more than 5n + 3 steps, and a run that cannot be continued
      has finished, provided the collector can keep up. */
  lemma EveryScheduleFinishes(c: Config, steps: seq<Step>, t: State)
    requires WellFormed(c) && Reaches(c, steps, t)
    ensures |steps| <= 5 * |c.sends| + 3
    ensures Drains(c) && Stuck(c, t) ==> t.finished
  {
    InitInv(c);
    InvAlways(c, Init(c), steps);
    RunsAreBounded(c, Init(c), steps);
    InitialWork(|c.sends|);
    if Drains(c) && !t.finished { NoDeadlock(c, t); }
  }

  /** Every state can be run to a standstill. */
  lemma {:induction false} RunToStandstill(c: Config, s: State) returns (steps: seq<Step>)
    requires Inv(c, s)
    ensures Valid(c, s, steps) && Stuck(c, After(c, s, steps))
    decreases Remaining(s)
  {
    if step :| Enabled(c, s, step) {
      StepWorks(c, s, step);
      InvKept(c, s, step);
      var rest := RunToStandstill(c, Apply(c, s, step));
      steps := [step] + rest;
      assert steps[1..] == rest;
    } else {
      steps := [];
    }
  }

  ghost predicate NeverBlocks(c: Config) {
    forall steps, t :: Reaches(c, steps, t) && Stuck(c, t) ==> t.finished
  }

  /** Waiting for all jobs before draining the channel is free of deadlock exactly when the channel
      has room for all results. */
  lemma WaitThenDrainBlocksIff(c: Config)
    requires c.mode == AfterClose
    ensures NeverBlocks(c) <==> |Senders(c)| <= c.capacity
  {
    if |Senders(c)| <= c.capacity {
      forall steps, t | Reaches(c, steps, t) && Stuck(c, t)
        ensures t.finished
      {
        EveryScheduleFinishes(c, steps, t);
      }
    } else {
      InitInv(c);
      var steps := RunToStandstill(c, Init(c));
      var t := After(c, Init(c), steps);
      InvAlways(c, Init(c), steps);
      assert Reaches(c, steps, t) && Stuck(c, t) && !t.finished;
    }
  }

  /** Draining while the jobs run never blocks, however many jobs there are. */
  lemma ConcurrentDrainNeverBlocks(c: Config)
    requires WellFormed(c) && c.mode != AfterClose && Drains(c)
    ensures NeverBlocks(c)
  {
    forall steps, t | Reaches(c, steps, t) && Stuck(c, t)
      ensures t.finished
    {
      EveryScheduleFinishes(c, steps, t);
    }
  }

  // ----- every order of arrival happens -----

  /** A run can be continued by an enabled step. */
  lemma Then(c: Config, steps: seq<Step>, s: State, step: Step) returns (longer: seq<Step>, t: State)
    requires Reaches(c, steps, s) && Enabled(c, s, step)
    ensures t == Apply(c, s, step) && Reaches(c, longer, t)
  {
    longer, t := steps + [step], Apply(c, s, step);
    assert [step][1..] == [];
    assert Valid(c, s, [step]) && After(c, s, [step]) == t;
    Concatenate(c, Init(c), steps, [step]);
  }

  /** All jobs are spawned, some are gone, the channel is empty and the collector is waiting. */
  ghost function Waiting(c: Config, pcs: seq<Pc>, received: seq<nat>): State {
    State(pcs, |c.sends|, Active(pcs), true, [], false, received, false, false)
  }

  lemma {:induction false} SpawnSome(c: Config, k: nat) returns (steps: seq<Step>, s: State)
    requires k <= |c.sends|
    ensures Reaches(c, steps, s)
    ensures s == Init(c).(pcs := seq(|c.sends|, i => if i < k then Checking else Unspawned), spawned := k, wg := k)
  {
    var n := |c.sends|;
    if k == 0 {
      steps, s := [], Init(c);
      assert s.pcs == seq(n, i => if i < k then Checking else Unspawned);
    } else {
      steps, s := SpawnSome(c, k - 1);
      steps, s := Then(c, steps, s, Spawn);
      assert s.pcs == seq(n, i => if i < k then Checking else Unspawned);
    }
  }

  lemma SpawnAll(c: Config) returns (steps: seq<Step>, pcs: seq<Pc>)
    ensures |pcs| == |c.sends| && forall i | 0 <= i < |pcs| :: pcs[i] == Checking
    ensures Reaches(c, steps, Waiting(c, pcs, []))
  {
    var s;
    steps, s := SpawnSome(c, |c.sends|);
    InitInv(c);
    InvAlways(c, Init(c), steps);
    steps, s := Then(c, steps, s, Collect);
    pcs := s.pcs;
  }

  lemma SkipJob(c: Config, steps: seq<Step>, pcs: seq<Pc>, received: seq<nat>, i: nat) returns (longer: seq<Step>)
    requires |pcs| == |c.sends| && i < |pcs| && pcs[i] == Checking && !c.sends[i]
    requires Reaches(c, steps, Waiting(c, pcs, received))
    ensures Reaches(c, longer, Waiting(c, pcs[i := Gone], received))
  {
    var s;
    ActiveUpdate(pcs, i, Leaving);
    ActiveUpdate(pcs, i, Gone);
    longer, s := Then(c, steps, Waiting(c, pcs, received), Check(i));
    longer, s := Then(c, longer, s, Leave(i));
    assert pcs[i := Leaving][i := Gone] == pcs[i := Gone];
  }

  lemma DeliverJob(c: Config, steps: seq<Step>, pcs: seq<Pc>, received: seq<nat>, i: nat) returns (longer: seq<Step>)
    requires c.mode != AfterClose && c.capacity >= 1 && |received| < |c.sends|
    requires |pcs| == |c.sends| && i < |pcs| && pcs[i] == Checking && c.sends[i]
    requires Reaches(c, steps, Waiting(c, pcs, received))
    ensures Reaches(c, longer, Waiting(c, pcs[i := Gone], received + [i]))
  {
    var s;
    ActiveUpdate(pcs, i, Gone);
    longer, s := Then(c, steps, Waiting(c, pcs, received), Check(i));
    longer, s := Then(c, longer, s, Send(i));
    longer, s := Then(c, longer, s, Receive);
    longer, s := Then(c, longer, s, Leave(i));
    assert pcs[i := Sending][i := Leaving][i := Gone] == pcs[i := Gone];
  }

  lemma {:induction false} SkipSome(c: Config, k: nat) returns (steps: seq<Step>, pcs: seq<Pc>)
    requires k <= |c.sends|
    ensures |pcs| == |c.sends|
    ensures forall i | 0 <= i < |pcs| :: pcs[i] == if i < k && !c.sends[i] then Gone else Checking
    ensures Reaches(c, steps, Waiting(c, pcs, []))
  {
    if k == 0 {
      steps, pcs := SpawnAll(c);
    } else {
      steps, pcs := SkipSome(c, k - 1);
      if !c.sends[k - 1] {
        steps := SkipJob(c, steps, pcs, [], k - 1);
        pcs := pcs[k - 1 := Gone];
      }
    }
  }

  lemma {:induction false} DeliverSome(c: Config, order: seq<nat>) returns (steps: seq<Step>, pcs: seq<Pc>)
    requires c.mode != AfterClose && Drains(c)
    requires Distinct(order) && forall k | 0 <= k < |order| :: order[k] in Senders(c)
    ensures |pcs| == |c.sends|
    ensures forall i | 0 <= i < |pcs| :: pcs[i] == if c.sends[i] && i !in order then Checking else Gone
    ensures Reaches(c, steps, Waiting(c, pcs, order))
  {
    if order == [] {
      steps, pcs := SkipSome(c, |c.sends|);
    } else {
      var n := |order| - 1;
      var i := order[n];
      assert order == order[..n] + [i];
      CardinalityBound(order, Senders(c));
      SendersBound(c);
      steps, pcs := DeliverSome(c, order[..n]);
      steps := DeliverJob(c, steps, pcs, order[..n], i);
      pcs := pcs[i := Gone];
    }
  }

  /** The orders in which results can arrive are exactly the orderings of the senders. */
  lemma ArrivalOrders(c: Config, order: seq<nat>)
    requires WellFormed(c) && c.mode != AfterClose && Drains(c)
    ensures (exists steps, t :: Reaches(c, steps, t) && t.finished && t.received == order) <==> IsOrdering(c, order)
  {
    if IsOrdering(c, order) {
      assert forall k | 0 <= k < |order| :: order[k] in order;
      var steps, pcs := DeliverSome(c, order);
      var s := Waiting(c, pcs, order);
      AllInactive(pcs);
      if c.mode == UntilClosed {
        steps, s := Then(c, steps, s, Close);
      } else {
        Cardinality(order, Senders(c));
        assert Senders(c) == Ids(|c.sends|);
      }
      steps, s := Then(c, steps, s, Finish);
      assert Reaches(c, steps, s) && s.finished && s.received == order;
    }
    if steps, t :| Reaches(c, steps, t) && t.finished && t.received == order {
      RunsAreSafe(c, steps, t);
    }
  }
}
