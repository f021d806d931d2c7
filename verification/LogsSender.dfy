/** Sending logs: the main gatherer and the collector of partial logs, as two processes.

    On the bootstrap host the gatherer starts the collector, runs the gathering scripts, then cancels
    the collector's context and waits for it, and only then archives and uploads the final logs. The
    collector archives and uploads what there is at every tick until it sees the cancellation. `log`
    records what the service and the archive see, in order.

    The gatherer adds to the wait group only after it has started the collector. A collector that
    returns before that makes the counter negative, which is a panic and ends the program.
 */
module LogsSender {

  datatype Event =
    | Requested
    | Collecting(partial: bool)
    | PartialTar(ok: bool)
    | Archived(partial: bool, ok: bool)
    | Uploaded(partial: bool, ok: bool)
    | Completed

  predicate IsPartial(e: Event) {
    e.PartialTar? || (e.Collecting? && e.partial) || (e.Archived? && e.partial) || (e.Uploaded? && e.partial)
  }

  predicate IsFinal(e: Event) {
    e.Completed? || (e.Collecting? && !e.partial) || (e.Archived? && !e.partial) || (e.Uploaded? && !e.partial)
  }

  datatype MainPc =
    | Reporting | CreatingFolder | Gathering | Spawning | Adding | Scripting | Cancelling | Waiting
    | FinalReport | FinalArchive | FinalUpload | FinalComplete | Returned(ok: bool)

  datatype CollectorPc =
    | Absent | MakingFolder | Selecting | Tarring | PartialReport | PartialArchive | PartialUpload | Leaving | Left

  datatype State = State(
    main: MainPc, collector: CollectorPc, wg: int, cancelled: bool, crashed: bool, log: seq<Event>)

  /** Steps of the main process and of the collector; `ok` is what a command or request answers. */
  datatype Step =
    | Main(ok: bool)
    | Collector(ok: bool)
    | Tick

  /** Whether the partial collector is used: installer logs are gathered, on the bootstrap host. */
  datatype Config = Config(gather: bool, bootstrap: bool)

  function Init(): State {
    State(Reporting, Absent, 0, false, false, [])
  }

  predicate Enabled(s: State, step: Step) {
    && !s.crashed
    && match step
       case Main(_) => !s.main.Returned? && (s.main.Waiting? ==> s.wg == 0)
       case Collector(_) =>
         !s.collector.Absent? && !s.collector.Left? && (s.collector.Selecting? ==> s.cancelled)
       case Tick => s.collector.Selecting?
  }

  function Apply(c: Config, s: State, step: Step): State
    requires Enabled(s, step)
  {
    match step
    case Main(ok) => MainStep(c, s, ok)
    case Collector(ok) => CollectorStep(s, ok)
    case Tick => s.(collector := Tarring)
  }

  function Logged(s: State, e: Event): State {
    s.(log := s.log + [e])
  }

  function MainStep(c: Config, s: State, ok: bool): State {
    match s.main
    case Reporting => Logged(s.(main := CreatingFolder), Requested)
    case CreatingFolder => s.(main := if ok then Gathering else Returned(false))
    case Gathering => s.(main := if c.gather && c.bootstrap then Spawning else FinalReport)
    case Spawning => s.(main := Adding, collector := MakingFolder)
    case Adding => s.(main := Scripting, wg := s.wg + 1)
    case Scripting => s.(main := Cancelling)
    case Cancelling => s.(main := Waiting, cancelled := true)
    case Waiting => s.(main := FinalReport)
    case FinalReport => Logged(s.(main := FinalArchive), Collecting(false))
    case FinalArchive => Logged(s.(main := if ok then FinalUpload else Returned(false)), Archived(false, ok))
    case FinalUpload => Logged(s.(main := if ok then FinalComplete else Returned(false)), Uploaded(false, ok))
    case FinalComplete => Logged(s.(main := Returned(true)), Completed)
    case Returned(_) => s
  }

  function CollectorStep(s: State, ok: bool): State {
    match s.collector
    case MakingFolder => s.(collector := if ok then Selecting else Leaving)
    case Selecting => s.(collector := Leaving)
    case Tarring => Logged(s.(collector := if ok then PartialReport else Selecting), PartialTar(ok))
    case PartialReport => Logged(s.(collector := PartialArchive), Collecting(true))
    case PartialArchive => Logged(s.(collector := if ok then PartialUpload else Selecting), Archived(true, ok))
    case PartialUpload => Logged(s.(collector := Selecting), Uploaded(true, ok))
    case Leaving => s.(collector := Left, wg := s.wg - 1, crashed := s.wg - 1 < 0)
    case _ => s
  }

  ghost predicate Valid(c: Config, s: State, steps: seq<Step>)
    decreases |steps|
  {
    steps == [] || (Enabled(s, steps[0]) && Valid(c, Apply(c, s, steps[0]), steps[1..]))
  }

  ghost function After(c: Config, s: State, steps: seq<Step>): State
    requires Valid(c, s, steps)
    decreases |steps|
  {
    if steps == [] then s else After(c, Apply(c, s, steps[0]), steps[1..])
  }

  ghost predicate Reachable(c: Config, s: State) {
    exists steps :: Valid(c, Init(), steps) && After(c, Init(), steps) == s
  }

  // ----- the invariant -----

  /** The main process has not started the collector yet. */
  predicate Early(pc: MainPc) {
    pc.Reporting? || pc.CreatingFolder? || pc.Gathering? || pc.Spawning?
  }

  /** The collector is running or may be running. */
  predicate During(pc: MainPc) {
    pc.Adding? || pc.Scripting? || pc.Cancelling? || pc.Waiting?
  }

  /** The events of the final upload, up to the point the main process has reached. */
  ghost predicate FinalEvents(pc: MainPc, events: seq<Event>) {
    match pc
    case FinalArchive => events == [Collecting(false)]
    case FinalUpload => events == [Collecting(false), Archived(false, true)]
    case FinalComplete => events == [Collecting(false), Archived(false, true), Uploaded(false, true)]
    case Returned(true) => events == [Collecting(false), Archived(false, true), Uploaded(false, true), Completed]
    case Returned(false) =>
      || events == []
      || events == [Collecting(false), Archived(false, false)]
      || events == [Collecting(false), Archived(false, true), Uploaded(false, false)]
    case _ => events == []
  }

  /** The log is the request, then partial events, then the events of the final upload. */
  ghost predicate Body(body: seq<Event>) {
    forall i | 0 <= i < |body| :: if i == 0 then body[i] == Requested else IsPartial(body[i])
  }

  ghost predicate Shape(pc: MainPc, log: seq<Event>, body: seq<Event>, final: seq<Event>) {
    && log == body + final
    && Body(body)
    && FinalEvents(pc, final)
    && (pc.Reporting? <==> body == [])
  }

  ghost predicate Sync(s: State) {
    && (Early(s.main) ==> s.collector.Absent? && s.wg == 0 && !s.cancelled)
    && (During(s.main) ==> !s.collector.Absent?)
    && (!Early(s.main) && !During(s.main) ==> s.collector.Absent? || s.collector.Left?)
    && (s.main.Waiting? <==> During(s.main) && s.cancelled)
    && (!s.crashed && s.main.Adding? ==> s.wg == 0 && !s.collector.Left?)
    && (!s.crashed && During(s.main) && !s.main.Adding? ==> s.wg == if s.collector.Left? then 0 else 1)
    && (s.crashed ==> s.main.Adding? && s.collector.Left?)
  }

  ghost predicate Inv(s: State) {
    Sync(s) && exists body, final :: Shape(s.main, s.log, body, final)
  }

  lemma SyncKept(c: Config, s: State, step: Step)
    requires Sync(s) && Enabled(s, step)
    ensures Sync(Apply(c, s, step))
  {
  }

  /** A collector step leaves the log alone or appends a partial event, and only while the main
      process has not begun the final upload. */
  lemma CollectorKeeps(c: Config, s: State, step: Step)
    requires Inv(s) && Enabled(s, step) && !step.Main?
    ensures Inv(Apply(c, s, step))
  {
    SyncKept(c, s, step);
    var t := Apply(c, s, step);
    assert During(s.main) && t.main == s.main;
    var body, final :| Shape(s.main, s.log, body, final);
    assert s.log == body;
    assert t.log == s.log || (t.log == s.log + [t.log[|s.log|]] && IsPartial(t.log[|s.log|]));
    assert Body(t.log);
    assert Shape(t.main, t.log, t.log, []);
  }

  lemma MainKeeps(c: Config, s: State, ok: bool)
    requires Inv(s) && Enabled(s, Main(ok))
    ensures Inv(Apply(c, s, Main(ok)))
  {
    SyncKept(c, s, Main(ok));
    hide Sync, Body, FinalEvents;
    var t := Apply(c, s, Main(ok));
    var body, final :| Shape(s.main, s.log, body, final);
    MainEvents(c, s, ok, final);
    if s.main.Reporting? {
      RequestIsBody();
      assert Shape(t.main, t.log, [Requested], []);
    } else if t.log == s.log {
      assert Shape(t.main, t.log, body, final);
    } else {
      var e := t.log[|s.log|];
      assert (body + final) + [e] == body + (final + [e]);
      assert Shape(t.main, t.log, body, final + [e]);
    }
  }

  lemma MainEvents(c: Config, s: State, ok: bool, final: seq<Event>)
    requires Enabled(s, Main(ok)) && FinalEvents(s.main, final)
    ensures var t := MainStep(c, s, ok);
            && !t.main.Reporting?
            && (s.main.Reporting? ==> t.log == s.log + [Requested] && final == [] && FinalEvents(t.main, []))
            && (t.log == s.log ==> FinalEvents(t.main, final))
            && (!s.main.Reporting? && t.log != s.log ==>
                  && |t.log| == |s.log| + 1
                  && t.log == s.log + [t.log[|s.log|]]
                  && FinalEvents(t.main, final + [t.log[|s.log|]]))
  {
  }

  lemma RequestIsBody()
    ensures Body([Requested])
  {
  }

  lemma InvKept(c: Config, s: State, step: Step)
    requires Inv(s) && Enabled(s, step)
    ensures Inv(Apply(c, s, step))
  {
    if step.Main? { MainKeeps(c, s, step.ok); } else { CollectorKeeps(c, s, step); }
  }

  lemma {:induction false} InvAlways(c: Config, s: State, steps: seq<Step>)
    requires Inv(s) && Valid(c, s, steps)
    ensures Inv(After(c, s, steps))
    decreases |steps|
  {
    if steps != [] {
      InvKept(c, s, steps[0]);
      InvAlways(c, Apply(c, s, steps[0]), steps[1..]);
    }
  }

  lemma ReachableInv(c: Config, s: State)
    requires Reachable(c, s)
    ensures Inv(s)
  {
    var steps :| Valid(c, Init(), steps) && After(c, Init(), steps) == s;
    assert Shape(Init().main, Init().log, [], []);
    InvAlways(c, Init(), steps);
  }

  // ----- the promises -----

  /** In every interleaving, once the final upload has begun nothing partial happens any more; the
      completion is reported only right after a successful final upload, and is the last event; and
      the logs are sent successfully exactly when it is reported. */
  lemma FinalLogsAreLast(c: Config, s: State)
    requires Reachable(c, s)
    ensures forall i, j | 0 <= i < j < |s.log| && IsFinal(s.log[i]) :: !IsPartial(s.log[j])
    ensures forall i | 0 <= i < |s.log| && s.log[i] == Completed ::
              i == |s.log| - 1 && i >= 3
                && s.log[i - 3..i] == [Collecting(false), Archived(false, true), Uploaded(false, true)]
    ensures s.main == Returned(true) <==> Completed in s.log
  {
    ReachableInv(c, s);
    var body, final :| Shape(s.main, s.log, body, final);
    ShapeTells(s.main, s.log, body, final);
  }

  lemma ShapeTells(pc: MainPc, log: seq<Event>, body: seq<Event>, final: seq<Event>)
    requires Shape(pc, log, body, final)
    ensures forall i, j | 0 <= i < j < |log| && IsFinal(log[i]) :: !IsPartial(log[j])
    ensures forall i | 0 <= i < |log| && log[i] == Completed ::
              i == |log| - 1 && i >= 3
                && log[i - 3..i] == [Collecting(false), Archived(false, true), Uploaded(false, true)]
    ensures pc == Returned(true) <==> Completed in log
  {
    var n := |body|;
    assert forall i | 0 <= i < n :: log[i] == body[i];
    assert forall i | n <= i < |log| :: log[i] == final[i - n];
    if pc == Returned(true) {
      assert final[3] == Completed;
      assert log[n + 3] == Completed;
      assert log[n..n + 3] == final[..3];
    }
    forall i | 0 <= i < |log| && log[i] == Completed
      ensures i == |log| - 1 && i >= 3 && pc == Returned(true)
    {
      assert i >= n;
      assert final[i - n] == Completed;
    }
  }

  /** Past the wait, the collector has been cancelled and has left; a gatherer whose working folder could
      not be created never had one. */
  ghost predicate WaitedFor(s: State) {
    && (s.main.Reporting? ==> s.log == [])
    && (s.main.CreatingFolder? ==> s.log == [Requested])
    && (!Early(s.main) && !During(s.main) && !GaveUp(s) ==> s.collector.Left? && s.cancelled)
    && (Collecting(false) in s.log ==> !Early(s.main) && !During(s.main) && !GaveUp(s))
  }

  ghost predicate GaveUp(s: State) {
    s.main == Returned(false) && s.log == [Requested]
  }

  lemma WaitedForKept(c: Config, s: State, step: Step)
    requires c.gather && c.bootstrap && Sync(s) && WaitedFor(s) && Enabled(s, step)
    ensures WaitedFor(Apply(c, s, step))
  {
  }

  lemma {:induction false} WaitedForAlways(c: Config, s: State, steps: seq<Step>)
    requires c.gather && c.bootstrap && Sync(s) && Valid(c, s, steps) && WaitedFor(s)
    ensures WaitedFor(After(c, s, steps))
    decreases |steps|
  {
    if steps != [] {
      SyncKept(c, s, steps[0]);
      WaitedForKept(c, s, steps[0]);
      WaitedForAlways(c, Apply(c, s, steps[0]), steps[1..]);
    }
  }

  /** On the bootstrap host with installer gathering, the final upload begins only after the collector was
      started, cancelled and has left. */
  lemma FinalUploadWaits(c: Config, s: State)
    requires c.gather && c.bootstrap && Reachable(c, s) && Collecting(false) in s.log
    ensures s.collector.Left? && s.cancelled
  {
    var steps :| Valid(c, Init(), steps) && After(c, Init(), steps) == s;
    WaitedForAlways(c, Init(), steps);
  }

  /** If the working folder cannot be created, the gatherer returns with an error and nothing more is
      reported. */
  lemma FolderFails(c: Config, ok: bool)
    ensures var steps := [Main(ok), Main(false)];
            && Valid(c, Init(), steps)
            && After(c, Init(), steps) == State(Returned(false), Absent, 0, false, false, [Requested])
  {
    var a, b := Main(ok), Main(false);
    var s := Apply(c, Init(), a);
    assert [a, b][1..] == [b] && [b][1..] == [];
    assert Valid(c, s, [b]) && After(c, s, [b]) == Apply(c, s, b);
  }

  /** No round of the collector is under way after this event. */
  predicate AtRest(e: Event) {
    e == Requested || e == PartialTar(false) || e == Archived(true, false) || (e.Uploaded? && e.partial)
  }

  /** What may stand directly before an event: a round is archive, report, archive, upload, and is cut
      short only by a failure; the final upload begins between rounds and has the same order. */
  predicate Follows(before: Event, e: Event) {
    match e
    case Requested => false
    case PartialTar(_) => AtRest(before)
    case Collecting(partial) => if partial then before == PartialTar(true) else AtRest(before)
    case Archived(partial, _) => before == Collecting(partial)
    case Uploaded(partial, _) => before == Archived(partial, true)
    case Completed => before == Uploaded(false, true)
  }

  /** What the last event is, from where the two processes are. */
  ghost predicate LastEvent(s: State, e: Event) {
    if During(s.main) then
      match s.collector
      case PartialReport => e == PartialTar(true)
      case PartialArchive => e == Collecting(true)
      case PartialUpload => e == Archived(true, true)
      case _ => AtRest(e)
    else match s.main
         case FinalArchive => e == Collecting(false)
         case FinalUpload => e == Archived(false, true)
         case FinalComplete => e == Uploaded(false, true)
         case Returned(_) => true
         case _ => AtRest(e)
  }

  ghost predicate Ordered(s: State) {
    && (s.main.Reporting? <==> s.log == [])
    && (s.log != [] ==> s.log[0] == Requested && LastEvent(s, s.log[|s.log| - 1]))
    && forall i | 1 <= i < |s.log| :: Follows(s.log[i - 1], s.log[i])
  }

  /** A step logs nothing, or one event that may follow the last one. */
  lemma StepFollows(c: Config, s: State, step: Step, last: Event)
    requires Sync(s) && Enabled(s, step) && (s.main.Reporting? || LastEvent(s, last))
    ensures var t := Apply(c, s, step);
            && !t.main.Reporting?
            && Grows(s, t, last)
  {
    if step.Main? { MainFollows(c, s, step.ok, last); } else { CollectorFollows(c, s, step, last); }
  }

  ghost predicate Grows(s: State, t: State, last: Event) {
    if t.log == s.log then !s.main.Reporting? && LastEvent(t, last)
    else
      && |t.log| == |s.log| + 1 && t.log[..|s.log|] == s.log
      && var e := t.log[|s.log|];
         LastEvent(t, e) && if s.main.Reporting? then e == Requested else Follows(last, e)
  }

  lemma MainFollows(c: Config, s: State, ok: bool, last: Event)
    requires Sync(s) && Enabled(s, Main(ok)) && (s.main.Reporting? || LastEvent(s, last))
    ensures Grows(s, MainStep(c, s, ok), last) && !MainStep(c, s, ok).main.Reporting?
  {
    if Early(s.main) || During(s.main) { EarlyFollows(c, s, ok, last); } else { FinalFollows(c, s, ok, last); }
  }

  lemma EarlyFollows(c: Config, s: State, ok: bool, last: Event)
    requires Sync(s) && Enabled(s, Main(ok)) && (s.main.Reporting? || LastEvent(s, last))
    requires Early(s.main) || During(s.main)
    ensures Grows(s, MainStep(c, s, ok), last) && !MainStep(c, s, ok).main.Reporting?
  {
  }

  lemma FinalFollows(c: Config, s: State, ok: bool, last: Event)
    requires Enabled(s, Main(ok)) && LastEvent(s, last) && !Early(s.main) && !During(s.main)
    ensures Grows(s, MainStep(c, s, ok), last) && !MainStep(c, s, ok).main.Reporting?
  {
  }

  lemma CollectorFollows(c: Config, s: State, step: Step, last: Event)
    requires Sync(s) && !step.Main? && Enabled(s, step) && LastEvent(s, last)
    ensures Grows(s, Apply(c, s, step), last) && Apply(c, s, step).main == s.main && !s.main.Reporting?
  {
  }

  lemma OrderedKept(c: Config, s: State, step: Step)
    requires Sync(s) && Ordered(s) && Enabled(s, step)
    ensures Ordered(Apply(c, s, step))
  {
    hide Sync, Enabled, Apply, Follows, LastEvent;
    var t := Apply(c, s, step);
    var last := if s.log == [] then Requested else s.log[|s.log| - 1];
    StepFollows(c, s, step, last);
    if t.log != s.log {
      assert forall i | 0 <= i < |s.log| :: t.log[i] == t.log[..|s.log|][i] == s.log[i];
    }
  }

  lemma {:induction false} OrderedAlways(c: Config, s: State, steps: seq<Step>)
    requires Sync(s) && Ordered(s) && Valid(c, s, steps)
    ensures Ordered(After(c, s, steps))
    decreases |steps|
  {
    if steps != [] {
      SyncKept(c, s, steps[0]);
      OrderedKept(c, s, steps[0]);
      OrderedAlways(c, Apply(c, s, steps[0]), steps[1..]);
    }
  }

  /** In every interleaving the log is the request, whole rounds of the collector, and the final upload. */
  lemma LogIsOrdered(c: Config, s: State)
    requires Reachable(c, s)
    ensures s.log == [] || s.log[0] == Requested
    ensures forall i | 1 <= i < |s.log| :: Follows(s.log[i - 1], s.log[i])
  {
    var steps :| Valid(c, Init(), steps) && After(c, Init(), steps) == s;
    OrderedAlways(c, Init(), steps);
  }

  // ----- runs with partial uploads -----

  lemma {:induction false} Next(c: Config, s: State, steps: seq<Step>, t: State, step: Step)
    returns (longer: seq<Step>, u: State)
    requires Valid(c, s, steps) && After(c, s, steps) == t && Enabled(t, step)
    ensures u == Apply(c, t, step) && Valid(c, s, longer) && After(c, s, longer) == u
    decreases |steps|
  {
    longer, u := steps + [step], Apply(c, t, step);
    if steps == [] {
      assert longer[1..] == [];
    } else {
      var tail, _ := Next(c, Apply(c, s, steps[0]), steps[1..], t, step);
      longer := [steps[0]] + tail;
      assert longer[1..] == tail;
    }
  }

  /** The events of n successful rounds of the collector. */
  function Rounds(n: nat): seq<Event> {
    if n == 0 then []
    else Rounds(n - 1) + [PartialTar(true), Collecting(true), Archived(true, true), Uploaded(true, true)]
  }

  lemma {:induction false} SomeRounds(c: Config, n: nat) returns (steps: seq<Step>, t: State)
    requires c.gather && c.bootstrap
    ensures Valid(c, Init(), steps) && After(c, Init(), steps) == t
    ensures t == State(Scripting, Selecting, 1, false, false, [Requested] + Rounds(n))
  {
    hide Valid, After;
    if n == 0 {
      NothingYet(c);
      steps, t := Next(c, Init(), [], Init(), Main(true));
      steps, t := Next(c, Init(), steps, t, Main(true));
      steps, t := Next(c, Init(), steps, t, Main(true));
      steps, t := Next(c, Init(), steps, t, Main(true));
      steps, t := Next(c, Init(), steps, t, Main(true));
      steps, t := Next(c, Init(), steps, t, Collector(true));
    } else {
      steps, t := SomeRounds(c, n - 1);
      steps, t := Next(c, Init(), steps, t, Tick);
      steps, t := Next(c, Init(), steps, t, Collector(true));
      steps, t := Next(c, Init(), steps, t, Collector(true));
      steps, t := Next(c, Init(), steps, t, Collector(true));
      steps, t := Next(c, Init(), steps, t, Collector(true));
    }
  }

  lemma NothingYet(c: Config)
    ensures Valid(c, Init(), []) && After(c, Init(), []) == Init()
  {
  }

  /** From between two rounds to the end. */
  lemma Finish(c: Config, steps: seq<Step>, t: State, log: seq<Event>) returns (longer: seq<Step>, u: State)
    requires Valid(c, Init(), steps) && After(c, Init(), steps) == t
    requires t == State(Scripting, Selecting, 1, false, false, log)
    ensures Valid(c, Init(), longer) && After(c, Init(), longer) == u && u.main == Returned(true)
    ensures u.log == log + [Collecting(false), Archived(false, true), Uploaded(false, true), Completed]
  {
    hide Valid, After;
    longer, u := Next(c, Init(), steps, t, Main(true));
    longer, u := Next(c, Init(), longer, u, Main(true));
    longer, u := Next(c, Init(), longer, u, Collector(true));
    longer, u := Next(c, Init(), longer, u, Collector(true));
    longer, u := Next(c, Init(), longer, u, Main(true));
    assert u == State(FinalReport, Left, 0, true, false, log);
    longer, u := Next(c, Init(), longer, u, Main(true));
    longer, u := Next(c, Init(), longer, u, Main(true));
    longer, u := Next(c, Init(), longer, u, Main(true));
    longer, u := Next(c, Init(), longer, u, Main(true));
  }

  /** On the bootstrap host any number of partial uploads can come before the final one. */
  lemma PartialUploadsHappen(c: Config, n: nat)
    requires c.gather && c.bootstrap
    ensures exists s :: Reachable(c, s) && s.main == Returned(true)
              && s.log == [Requested] + Rounds(n)
                          + [Collecting(false), Archived(false, true), Uploaded(false, true), Completed]
  {
    hide Valid, After, Rounds;
    var steps, t := SomeRounds(c, n);
    steps, t := Finish(c, steps, t, [Requested] + Rounds(n));
    assert Reachable(c, t);
  }

  /** A crash of the collector comes before the final upload and lets nothing follow. */
  lemma CrashIsSilent(c: Config, s: State)
    requires Reachable(c, s) && s.crashed
    ensures forall i | 0 <= i < |s.log| :: !IsFinal(s.log[i])
    ensures forall step :: !Enabled(s, step)
  {
    ReachableInv(c, s);
    var body, final :| Shape(s.main, s.log, body, final);
    assert final == [] && s.log == body;
  }

  /** The two processes never deadlock: until the gatherer has returned or the program has crashed, one
      of them can move, and after the cancellation the collector can always leave. */
  lemma NeverStuck(c: Config, s: State)
    requires Reachable(c, s) && !s.crashed && !s.main.Returned?
    ensures exists step :: Enabled(s, step)
    ensures s.main.Waiting? && s.wg != 0 ==> Enabled(s, Collector(true))
  {
    ReachableInv(c, s);
    if s.main.Waiting? && s.wg != 0 {
      assert Enabled(s, Collector(true));
    } else {
      assert Enabled(s, Main(true));
    }
  }

  /** The steps the gatherer still has to take; starting the collector brings its steps along. */
  function MainWork(pc: MainPc): nat {
    match pc
    case Reporting => 15
    case CreatingFolder => 14
    case Gathering => 13
    case Spawning => 12
    case Adding => 8
    case Scripting => 7
    case Cancelling => 6
    case Waiting => 5
    case FinalReport => 4
    case FinalArchive => 3
    case FinalUpload => 2
    case FinalComplete => 1
    case Returned(_) => 0
  }

  /** The steps the collector still has to take if no tick comes. */
  function CollectorWork(pc: CollectorPc): nat {
    match pc
    case Absent => 0
    case MakingFolder => 3
    case Selecting => 2
    case Tarring => 6
    case PartialReport => 5
    case PartialArchive => 4
    case PartialUpload => 3
    case Leaving => 1
    case Left => 0
  }

  function Remaining(s: State): nat {
    MainWork(s.main) + CollectorWork(s.collector)
  }

  function Ticks(steps: seq<Step>): nat {
    if steps == [] then 0 else (if steps[0].Tick? then 1 else 0) + Ticks(steps[1..])
  }

  lemma StepWorks(c: Config, s: State, step: Step)
    requires Sync(s) && Enabled(s, step)
    ensures 1 + Remaining(Apply(c, s, step)) <= Remaining(s) + if step.Tick? then 5 else 0
  {
  }

  lemma {:induction false} RunsAreBounded(c: Config, s: State, steps: seq<Step>)
    requires Sync(s) && Valid(c, s, steps)
    ensures |steps| + Remaining(After(c, s, steps)) <= Remaining(s) + 5 * Ticks(steps)
    decreases |steps|
  {
    if steps != [] {
      hide Sync, Enabled, Apply, Remaining;
      SyncKept(c, s, steps[0]);
      StepWorks(c, s, steps[0]);
      RunsAreBounded(c, Apply(c, s, steps[0]), steps[1..]);
    }
  }

  /** Only ticks can prolong a run: one with t ticks has at most 15 + 5t steps, and when no step is left
      the gatherer has returned or the program has crashed. */
  lemma EveryRunEnds(c: Config, steps: seq<Step>)
    requires Valid(c, Init(), steps)
    ensures |steps| <= 15 + 5 * Ticks(steps)
    ensures var s := After(c, Init(), steps);
            (forall step :: !Enabled(s, step)) ==> s.crashed || s.main.Returned?
  {
    RunsAreBounded(c, Init(), steps);
    var s := After(c, Init(), steps);
    assert Reachable(c, s);
    if !s.crashed && !s.main.Returned? {
      NeverStuck(c, s);
    }
  }

  /** While the gatherer waits, it is at most six steps of the collector and five per tick from going on. */
  lemma WaitIsBounded(c: Config, s: State, steps: seq<Step>)
    requires Reachable(c, s) && s.main.Waiting? && Valid(c, s, steps)
    requires After(c, s, steps).main.Waiting?
    ensures |steps| <= 6 + 5 * Ticks(steps)
  {
    ReachableInv(c, s);
    RunsAreBounded(c, s, steps);
  }

  /** Without the bootstrap gathering there is no collector, and nothing can crash. */
  lemma NoCollector(c: Config, s: State, steps: seq<Step>)
    requires !(c.gather && c.bootstrap)
    requires s.collector.Absent? && !s.crashed && Valid(c, s, steps)
    requires !s.main.Spawning?
    ensures After(c, s, steps).collector.Absent? && !After(c, s, steps).crashed
    decreases |steps|
  {
    if steps != [] {
      NoCollector(c, Apply(c, s, steps[0]), steps[1..]);
    }
  }
}
