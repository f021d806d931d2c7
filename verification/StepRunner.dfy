/** The goroutine that handles one step, and the two actions guarded by a semaphore.

    Any number of step goroutines run at once. Each diagnoses the system, creates and runs its
    action, diagnoses again after a failure, sends its reply and, if the reply says that the agent
    was upgraded, cancels the step processor. What commands answer is part of the events.
 */
module StepRunner {
  import opened Common

  datatype Kind = UpgradeAgent | ImageAvailability | OtherStep
  datatype UpgradeResult = NoResult | Success | Failure

  /** The output of a step: nothing, an upgrade response, or text that is not one. */
  datatype Output = Empty | UpgradeResponse(image: string, result: UpgradeResult) | Text(text: string)

  datatype Reply = Reply(kind: Kind, output: Output, exitCode: int)

  const MEDIA_DISCONNECTED := 256

  /** The agent restarts after an upgrade step that answered "success". */
  predicate RequiresRestart(reply: Reply) {
    reply.kind == UpgradeAgent && reply.output.UpgradeResponse? && reply.output.result == Success
  }

  // ----- the guarded actions, run alone -----

  class Semaphore {
    var held: bool

    constructor ()
      ensures !held
    {
      held := false;
    }

    method TryAcquire() returns (acquired: bool)
      modifies this
      ensures acquired == !old(held) && held
    {
      acquired := !held;
      held := true;
    }

    method Release()
      requires held
      modifies this
      ensures !held
    {
      held := false;
    }
  }

  /** The upgrade action: a request that cannot be read fails; otherwise the exit code is always 0, and
      the response says "success" exactly when this call pulled the image and the pull exited 0. */
  method Upgrade(request: Option<string>, sem: Semaphore, pullExitCode: int) returns (output: Output, exitCode: int)
    modifies sem
    ensures sem.held == old(sem.held)
    ensures request.None? ==> output == Empty && exitCode == -1
    ensures request.Some? ==> exitCode == 0 && output.UpgradeResponse? && output.image == request.value
    ensures request.Some? ==> (output.result == Success <==> !old(sem.held) && pullExitCode == 0)
    ensures request.Some? ==> (output.result == Failure <==> !old(sem.held) && pullExitCode != 0)
  {
    if request.None? {
      return Empty, -1;
    }
    var result := NoResult;
    var acquired := sem.TryAcquire();
    if acquired {
      result := if pullExitCode == 0 then Success else Failure;
      sem.Release();
    }
    return UpgradeResponse(request.value, result), 0;
  }

  // ----- any number of step goroutines -----

  datatype Pc =
    | Starting
    | Creating
    | Ready
    | Pulling(image: string)
    | Pulled(image: string, result: UpgradeResult)
    | CheckingImages
    | Ran(reply: Reply)
    | Replying(reply: Reply, mayRestart: bool)
    | Sent(reply: Reply, mayRestart: bool)
    | Ended

  /** `pulled`: the goroutine ran an image pull that exited 0; `cancelled`: it cancelled the processor. */
  datatype Goroutine = Goroutine(kind: Kind, pc: Pc, pulled: bool, cancelled: bool)

  datatype State = State(gs: seq<Goroutine>, pullHeld: bool, imagesHeld: bool, cancelled: bool)

  datatype Event =
    | Spawn(kind: Kind)
    | Diagnose(g: nat, detected: bool)
    | Create(g: nat, ok: bool)
    | RunUpgrade(g: nat, request: Option<string>)
    | PullEnds(g: nat, exitCode: int)
    | ReleasePull(g: nat)
    | RunImages(g: nat)
    | ImagesEnd(g: nat, output: Output, exitCode: int)
    | RunOther(g: nat, output: Output, exitCode: int)
    | DiagnoseAgain(g: nat, detected: bool)
    | SendReply(g: nat)
    | Conclude(g: nat)

  function Init(): State {
    State([], false, false, false)
  }

  predicate Enabled(s: State, e: Event) {
    e.Spawn? ||
    (e.g < |s.gs| &&
     var g := s.gs[e.g];
     match e
     case Diagnose(_, _) => g.pc.Starting?
     case Create(_, _) => g.pc.Creating?
     case RunUpgrade(_, _) => g.pc.Ready? && g.kind == UpgradeAgent
     case PullEnds(_, _) => g.pc.Pulling?
     case ReleasePull(_) => g.pc.Pulled?
     case RunImages(_) => g.pc.Ready? && g.kind == ImageAvailability
     case ImagesEnd(_, _, _) => g.pc.CheckingImages?
     case RunOther(_, _, _) => g.pc.Ready? && g.kind == OtherStep
     case DiagnoseAgain(_, _) => g.pc.Ran?
     case SendReply(_) => g.pc.Replying?
     case Conclude(_) => g.pc.Sent?)
  }

  /** What an event does to the goroutine it belongs to. */
  function Moved(s: State, e: Event): Goroutine
    requires Enabled(s, e) && !e.Spawn?
  {
    var g := s.gs[e.g];
    match e
    case Diagnose(_, detected) =>
      g.(pc := if detected then Replying(Reply(g.kind, Empty, MEDIA_DISCONNECTED), false) else Creating)
    case Create(_, ok) => g.(pc := if ok then Ready else Ran(Reply(g.kind, Empty, -1)))
    case RunUpgrade(_, None) => g.(pc := Ran(Reply(g.kind, Empty, -1)))
    case RunUpgrade(_, Some(image)) =>
      g.(pc := if s.pullHeld then Ran(Reply(g.kind, UpgradeResponse(image, NoResult), 0)) else Pulling(image))
    case PullEnds(_, exitCode) =>
      g.(pc := Pulled(g.pc.image, if exitCode == 0 then Success else Failure), pulled := exitCode == 0)
    case ReleasePull(_) => g.(pc := Ran(Reply(g.kind, UpgradeResponse(g.pc.image, g.pc.result), 0)))
    case RunImages(_) => g.(pc := if s.imagesHeld then Ran(Reply(g.kind, Empty, 0)) else CheckingImages)
    case ImagesEnd(_, output, exitCode) => g.(pc := Ran(Reply(g.kind, output, exitCode)))
    case RunOther(_, output, exitCode) => g.(pc := Ran(Reply(g.kind, output, exitCode)))
    case DiagnoseAgain(_, detected) =>
      var r := g.pc.reply;
      g.(pc := Replying(if r.exitCode != 0 && detected then r.(exitCode := MEDIA_DISCONNECTED) else r, true))
    case SendReply(_) => g.(pc := Sent(g.pc.reply, g.pc.mayRestart))
    case Conclude(_) => g.(pc := Ended, cancelled := g.pc.mayRestart && RequiresRestart(g.pc.reply))
  }

  function Apply(s: State, e: Event): State
    requires Enabled(s, e)
  {
    if e.Spawn? then s.(gs := s.gs + [Goroutine(e.kind, Starting, false, false)])
    else
      var g := Moved(s, e);
      State(s.gs[e.g := g],
            (s.pullHeld || (e.RunUpgrade? && e.request.Some?)) && !e.ReleasePull?,
            (s.imagesHeld || e.RunImages?) && !e.ImagesEnd?,
            s.cancelled || g.cancelled)
  }

  ghost predicate Valid(s: State, events: seq<Event>)
    decreases |events|
  {
    events == [] || (Enabled(s, events[0]) && Valid(Apply(s, events[0]), events[1..]))
  }

  ghost function After(s: State, events: seq<Event>): State
    requires Valid(s, events)
    decreases |events|
  {
    if events == [] then s else After(Apply(s, events[0]), events[1..])
  }

  ghost predicate Reachable(s: State) {
    exists events :: Valid(Init(), events) && After(Init(), events) == s
  }

  // ----- invariants -----

  predicate InPull(g: Goroutine) {
    g.pc.Pulling? || g.pc.Pulled?
  }

  predicate InImages(g: Goroutine) {
    g.pc.CheckingImages?
  }

  /** What a goroutine will do about cancelling is decided by whether it pulled the image. */
  predicate Consistent(g: Goroutine) {
    && (g.pulled ==> g.kind == UpgradeAgent)
    && (g.cancelled ==> g.pc.Ended?)
    && match g.pc
       case Pulling(_) => !g.pulled && g.kind == UpgradeAgent
       case Pulled(_, result) => g.kind == UpgradeAgent && (result == Success <==> g.pulled)
       case Ran(reply) => reply.kind == g.kind && (RequiresRestart(reply) <==> g.pulled)
       case Replying(reply, may) => reply.kind == g.kind && (may && RequiresRestart(reply) <==> g.pulled)
       case Sent(reply, may) => reply.kind == g.kind && (may && RequiresRestart(reply) <==> g.pulled)
       case Ended => g.cancelled == g.pulled
       case _ => !g.pulled
  }

  ghost predicate Guarded(s: State) {
    && (forall i, j | 0 <= i < |s.gs| && 0 <= j < |s.gs| && InPull(s.gs[i]) && InPull(s.gs[j]) :: i == j)
    && (forall i, j | 0 <= i < |s.gs| && 0 <= j < |s.gs| && InImages(s.gs[i]) && InImages(s.gs[j]) :: i == j)
    && (s.pullHeld <==> exists i :: 0 <= i < |s.gs| && InPull(s.gs[i]))
    && (s.imagesHeld <==> exists i :: 0 <= i < |s.gs| && InImages(s.gs[i]))
  }

  ghost predicate Inv(s: State) {
    && Guarded(s)
    && (forall i | 0 <= i < |s.gs| :: Consistent(s.gs[i]))
    && (s.cancelled <==> exists i :: 0 <= i < |s.gs| && s.gs[i].cancelled)
    && (forall i | 0 <= i < |s.gs| && InImages(s.gs[i]) :: s.gs[i].kind == ImageAvailability)
  }

  lemma ConsistentKept(s: State, e: Event)
    requires Inv(s) && Enabled(s, e) && !e.Spawn?
    ensures Consistent(Moved(s, e))
    ensures InImages(Moved(s, e)) ==> Moved(s, e).kind == ImageAvailability
  {
    assert Consistent(s.gs[e.g]);
  }

  lemma GuardedKept(s: State, e: Event)
    requires Guarded(s) && Enabled(s, e)
    ensures Guarded(Apply(s, e))
  {
    var t := Apply(s, e);
    if e.Spawn? {
      assert forall i | 0 <= i < |s.gs| :: t.gs[i] == s.gs[i];
    } else {
      var g, g' := s.gs[e.g], t.gs[e.g];
      assert forall i | 0 <= i < |s.gs| && i != e.g :: t.gs[i] == s.gs[i];
      PullKept(s, e);
      ImagesKept(s, e);
    }
  }

  lemma PullKept(s: State, e: Event)
    requires Guarded(s) && Enabled(s, e) && !e.Spawn?
    ensures var t := Apply(s, e);
            && (forall i, j | 0 <= i < |t.gs| && 0 <= j < |t.gs| && InPull(t.gs[i]) && InPull(t.gs[j]) :: i == j)
            && (t.pullHeld <==> exists i :: 0 <= i < |t.gs| && InPull(t.gs[i]))
  {
    var t := Apply(s, e);
    var k := e.g;
    assert forall i | 0 <= i < |s.gs| && i != k :: t.gs[i] == s.gs[i];
    if e.RunUpgrade? && e.request.Some? {
      if s.pullHeld {
        var i :| 0 <= i < |s.gs| && InPull(s.gs[i]);
        assert InPull(t.gs[i]);
      } else {
        assert InPull(t.gs[k]);
      }
    } else if e.ReleasePull? {
      assert InPull(s.gs[k]) && !InPull(t.gs[k]);
    } else {
      assert InPull(t.gs[k]) <==> InPull(s.gs[k]);
      assert forall i | 0 <= i < |s.gs| :: InPull(t.gs[i]) <==> InPull(s.gs[i]);
    }
  }

  lemma ImagesKept(s: State, e: Event)
    requires Guarded(s) && Enabled(s, e) && !e.Spawn?
    ensures var t := Apply(s, e);
            && (forall i, j | 0 <= i < |t.gs| && 0 <= j < |t.gs| && InImages(t.gs[i]) && InImages(t.gs[j]) :: i == j)
            && (t.imagesHeld <==> exists i :: 0 <= i < |t.gs| && InImages(t.gs[i]))
  {
    var t := Apply(s, e);
    var k := e.g;
    assert forall i | 0 <= i < |s.gs| && i != k :: t.gs[i] == s.gs[i];
    if e.RunImages? {
      if s.imagesHeld {
        var i :| 0 <= i < |s.gs| && InImages(s.gs[i]);
        assert InImages(t.gs[i]);
      } else {
        assert InImages(t.gs[k]);
      }
    } else if e.ImagesEnd? {
      assert InImages(s.gs[k]) && !InImages(t.gs[k]);
    } else {
      assert InImages(t.gs[k]) <==> InImages(s.gs[k]);
      assert forall i | 0 <= i < |s.gs| :: InImages(t.gs[i]) <==> InImages(s.gs[i]);
    }
  }

  lemma CancelKept(s: State, e: Event)
    requires Inv(s) && Enabled(s, e) && !e.Spawn?
    ensures var t := Apply(s, e); t.cancelled <==> exists i :: 0 <= i < |t.gs| && t.gs[i].cancelled
  {
    hide Guarded, Moved;
    var t := Apply(s, e);
    assert Consistent(s.gs[e.g]);
    assert !s.gs[e.g].cancelled;
    assert forall i | 0 <= i < |s.gs| && i != e.g :: t.gs[i] == s.gs[i];
    if t.gs[e.g].cancelled {
      assert t.cancelled;
    } else if i :| 0 <= i < |s.gs| && s.gs[i].cancelled {
      assert t.gs[i].cancelled;
    }
  }

  lemma InvKept(s: State, e: Event)
    requires Inv(s) && Enabled(s, e)
    ensures Inv(Apply(s, e))
  {
    hide Guarded, Consistent, Moved;
    var t := Apply(s, e);
    GuardedKept(s, e);
    if e.Spawn? {
      assert forall i | 0 <= i < |s.gs| :: t.gs[i] == s.gs[i];
      Fresh(e.kind);
    } else {
      ConsistentKept(s, e);
      CancelKept(s, e);
      assert forall i | 0 <= i < |s.gs| && i != e.g :: t.gs[i] == s.gs[i];
    }
  }

  lemma Fresh(kind: Kind)
    ensures Consistent(Goroutine(kind, Starting, false, false))
  {
  }

  lemma {:induction false} InvAlways(s: State, events: seq<Event>)
    requires Inv(s) && Valid(s, events)
    ensures Inv(After(s, events))
    decreases |events|
  {
    if events != [] {
      InvKept(s, events[0]);
      InvAlways(Apply(s, events[0]), events[1..]);
    }
  }

  // ----- the promises -----

  /** In every run at most one step pulls the agent image at a time, and at most one checks image
      availability; each semaphore is held exactly while somebody is inside. */
  lemma MutualExclusion(s: State, i: nat, j: nat)
    requires Reachable(s) && i < |s.gs| && j < |s.gs|
    ensures InPull(s.gs[i]) && InPull(s.gs[j]) ==> i == j
    ensures InImages(s.gs[i]) && InImages(s.gs[j]) ==> i == j
    ensures !s.pullHeld ==> !InPull(s.gs[i])
    ensures s.pullHeld ==> exists k :: 0 <= k < |s.gs| && InPull(s.gs[k])
    ensures !s.imagesHeld ==> !InImages(s.gs[i])
    ensures s.imagesHeld ==> exists k :: 0 <= k < |s.gs| && InImages(s.gs[k])
  {
    var events :| Valid(Init(), events) && After(Init(), events) == s;
    InvAlways(Init(), events);
  }

  /** `pulled` records that the pull of the goroutine exited 0. */
  lemma {:induction false} PulledMeans(s: State, events: seq<Event>, i: nat)
    requires Inv(s) && Valid(s, events) && i < |After(s, events).gs|
    ensures After(s, events).gs[i].pulled <==> (i < |s.gs| && s.gs[i].pulled) || PullEnds(i, 0) in events
    decreases |events|
  {
    if events != [] {
      var e := events[0];
      InvKept(s, e);
      PulledStep(s, e, i);
      PulledMeans(Apply(s, e), events[1..], i);
      assert events == [e] + events[1..];
    }
  }

  lemma PulledStep(s: State, e: Event, i: nat)
    requires Inv(s) && Enabled(s, e)
    ensures i < |Apply(s, e).gs| && Apply(s, e).gs[i].pulled
            <==> (i < |s.gs| && s.gs[i].pulled) || (i < |s.gs| && e == PullEnds(i, 0))
  {
    hide Guarded;
    if i < |s.gs| { assert Consistent(s.gs[i]); }
  }

  lemma {:induction false} EventsInRange(s: State, events: seq<Event>)
    requires Valid(s, events)
    ensures |s.gs| <= |After(s, events).gs|
    ensures forall e | e in events && !e.Spawn? :: e.g < |After(s, events).gs|
    decreases |events|
  {
    if events != [] { EventsInRange(Apply(s, events[0]), events[1..]); }
  }

  /** In every run a step goroutine cancels the processor only if it ran an upgrade step whose image pull
      exited 0, and if it did, it has cancelled when it ends; the processor is cancelled exactly if some
      goroutine has cancelled it. */
  lemma CancelsIffUpgraded(events: seq<Event>, i: nat)
    requires Valid(Init(), events) && i < |After(Init(), events).gs|
    ensures var s := After(Init(), events);
            && (s.gs[i].cancelled ==> s.gs[i].kind == UpgradeAgent && PullEnds(i, 0) in events)
            && (s.gs[i].pc.Ended? && PullEnds(i, 0) in events ==> s.gs[i].cancelled)
            && (s.cancelled <==> exists k :: 0 <= k < |s.gs| && s.gs[k].cancelled)
  {
    hide Guarded;
    var s := After(Init(), events);
    InitInv();
    InvAlways(Init(), events);
    PulledMeans(Init(), events, i);
    assert Consistent(s.gs[i]);
  }

  lemma InitInv()
    ensures Inv(Init())
  {
  }

  /** A step is never stuck: until its goroutine has ended it can move, whatever the others do. */
  lemma NeverStuck(s: State, i: nat)
    requires i < |s.gs| && !s.gs[i].pc.Ended?
    ensures exists e :: Enabled(s, e) && !e.Spawn? && e.g == i && Moved(s, e).pc != s.gs[i].pc
  {
    var g := s.gs[i];
    var e := match g.pc
      case Starting => Diagnose(i, false)
      case Creating => Create(i, true)
      case Ready =>
        (match g.kind
         case UpgradeAgent => RunUpgrade(i, None)
         case ImageAvailability => RunImages(i)
         case OtherStep => RunOther(i, Empty, 0))
      case Pulling(_) => PullEnds(i, 0)
      case Pulled(_, _) => ReleasePull(i)
      case CheckingImages => ImagesEnd(i, Empty, 0)
      case Ran(_) => DiagnoseAgain(i, false)
      case Replying(_, _) => SendReply(i)
      case Sent(_, _) => Conclude(i);
    assert Enabled(s, e);
  }

  /** How many steps a goroutine still has before it at most. */
  function Ahead(pc: Pc): nat {
    match pc
    case Starting => 8
    case Creating => 7
    case Ready => 6
    case Pulling(_) => 5
    case Pulled(_, _) => 4
    case CheckingImages => 4
    case Ran(_) => 3
    case Replying(_, _) => 2
    case Sent(_, _) => 1
    case Ended => 0
  }

  /** Every move brings its goroutine closer to its end, and no other move takes it back. */
  lemma MovesAdvance(s: State, e: Event, i: nat)
    requires Enabled(s, e) && i < |s.gs|
    ensures if !e.Spawn? && e.g == i then Ahead(Apply(s, e).gs[i].pc) < Ahead(s.gs[i].pc)
            else Apply(s, e).gs[i] == s.gs[i]
  {
  }

  lemma Consecutive(s: State, e: Event, rest: seq<Event>)
    requires Enabled(s, e) && Valid(Apply(s, e), rest)
    ensures Valid(s, [e] + rest) && After(s, [e] + rest) == After(Apply(s, e), rest)
  {
    assert ([e] + rest)[1..] == rest;
  }

  /** An upgrade step pulls the image unless another step is pulling, and answers as `Upgrade` does; it
      leaves the semaphore as it found it. */
  lemma UpgradeRuns(s: State, i: nat, image: string, code: int)
    requires Inv(s) && i < |s.gs| && s.gs[i].pc.Ready? && s.gs[i].kind == UpgradeAgent
    ensures Enabled(s, RunUpgrade(i, Some(image)))
    ensures (exists k :: 0 <= k < |s.gs| && InPull(s.gs[k])) ==>
              var t := Apply(s, RunUpgrade(i, Some(image)));
              t.gs[i].pc == Ran(Reply(UpgradeAgent, UpgradeResponse(image, NoResult), 0)) && t.pullHeld
    ensures (forall k | 0 <= k < |s.gs| :: !InPull(s.gs[k])) ==>
              var events := [RunUpgrade(i, Some(image)), PullEnds(i, code), ReleasePull(i)];
              && Valid(s, events) && !After(s, events).pullHeld && |After(s, events).gs| == |s.gs|
              && var result := if code == 0 then Success else Failure;
                 After(s, events).gs[i].pc == Ran(Reply(UpgradeAgent, UpgradeResponse(image, result), 0))
  {
    hide Consistent;
    if forall k | 0 <= k < |s.gs| :: !InPull(s.gs[k]) {
      var a, b, c := RunUpgrade(i, Some(image)), PullEnds(i, code), ReleasePull(i);
      assert !s.pullHeld;
      var s1 := Apply(s, a);
      assert s1.gs[i].pc == Pulling(image) && Enabled(s1, b);
      var s2 := Apply(s1, b);
      assert Enabled(s2, c);
      Consecutive(s2, c, []);
      Consecutive(s1, b, [c] + []);
      Consecutive(s, a, [b] + ([c] + []));
      assert [a] + ([b] + ([c] + [])) == [a, b, c];
    }
  }

  /** So does an image availability step with its own semaphore: it checks unless another is checking. */
  lemma ImagesRun(s: State, i: nat, output: Output, code: int)
    requires Inv(s) && i < |s.gs| && s.gs[i].pc.Ready? && s.gs[i].kind == ImageAvailability
    ensures Enabled(s, RunImages(i))
    ensures (exists k :: 0 <= k < |s.gs| && InImages(s.gs[k])) ==>
              Apply(s, RunImages(i)).gs[i].pc == Ran(Reply(ImageAvailability, Empty, 0))
    ensures (forall k | 0 <= k < |s.gs| :: !InImages(s.gs[k])) ==>
              var events := [RunImages(i), ImagesEnd(i, output, code)];
              && Valid(s, events) && !After(s, events).imagesHeld && |After(s, events).gs| == |s.gs|
              && After(s, events).gs[i].pc == Ran(Reply(ImageAvailability, output, code))
  {
    hide Consistent;
    if forall k | 0 <= k < |s.gs| :: !InImages(s.gs[k]) {
      var a, b := RunImages(i), ImagesEnd(i, output, code);
      Consecutive(Apply(s, a), b, []);
      Consecutive(s, a, [b] + []);
      assert [a] + ([b] + []) == [a, b];
    }
  }

  // ----- where replies come from -----

  /** The reply of the action of goroutine i, as the events of the run tell it. */
  ghost predicate Acted(es: seq<Event>, i: nat, kind: Kind, r: Reply) {
    r.kind == kind &&
    ( || (Create(i, false) in es && r.output == Empty && r.exitCode == -1)
      || (kind == UpgradeAgent && RunUpgrade(i, None) in es && r.output == Empty && r.exitCode == -1)
      || (kind == UpgradeAgent && r.exitCode == 0 && r.output.UpgradeResponse?
          && RunUpgrade(i, Some(r.output.image)) in es && PullTold(es, i, r.output.result))
      || (kind == ImageAvailability && RunImages(i) in es && ImagesTold(es, i, r))
      || (kind == OtherStep && RunOther(i, r.output, r.exitCode) in es))
  }

  /** "success" if the pull exited 0, "failure" if it did not, neither if there was no pull. */
  ghost predicate PullTold(es: seq<Event>, i: nat, result: UpgradeResult) {
    match result
    case Success => PullEnds(i, 0) in es
    case Failure => exists code :: code != 0 && PullEnds(i, code) in es
    case NoResult => NotPulled(es, i)
  }

  /** The answer of the check, or an empty success if another check was under way. */
  ghost predicate ImagesTold(es: seq<Event>, i: nat, r: Reply) {
    || ImagesEnd(i, r.output, r.exitCode) in es
    || (r.output == Empty && r.exitCode == 0 && ImagesNotChecked(es, i))
  }

  ghost predicate NotPulled(es: seq<Event>, i: nat) {
    forall e | e in es && e.PullEnds? :: e.g != i
  }

  ghost predicate ImagesNotChecked(es: seq<Event>, i: nat) {
    forall e | e in es && e.ImagesEnd? :: e.g != i
  }

  ghost predicate NothingRan(es: seq<Event>, i: nat) {
    NotPulled(es, i) && ImagesNotChecked(es, i)
  }

  /** The reply that is sent: a problem found first is reported as such; otherwise it is the reply of the
      action, a failing one with its exit code replaced if a problem is found afterwards. */
  ghost predicate Replied(es: seq<Event>, i: nat, kind: Kind, r: Reply, may: bool) {
    if !may then Diagnose(i, true) in es && r == Reply(kind, Empty, 256)
    else exists r0, detected :: Acted(es, i, kind, r0) && DiagnoseAgain(i, detected) in es && Relayed(r0, detected, r)
  }

  ghost predicate Relayed(r0: Reply, detected: bool, r: Reply) {
    && r.kind == r0.kind && r.output == r0.output
    && r.exitCode == if r0.exitCode != 0 && detected then 256 else r0.exitCode
  }

  ghost predicate Explained(es: seq<Event>, i: nat, g: Goroutine) {
    match g.pc
    case Starting => NothingRan(es, i)
    case Creating => NothingRan(es, i)
    case Ready => NothingRan(es, i)
    case Pulling(image) => g.kind == UpgradeAgent && RunUpgrade(i, Some(image)) in es && NothingRan(es, i)
    case Pulled(image, result) =>
      g.kind == UpgradeAgent && RunUpgrade(i, Some(image)) in es && result != NoResult && PullTold(es, i, result)
    case CheckingImages => g.kind == ImageAvailability && RunImages(i) in es && NothingRan(es, i)
    case Ran(r) => Acted(es, i, g.kind, r)
    case Replying(r, may) => Replied(es, i, g.kind, r, may)
    case Sent(r, may) => Replied(es, i, g.kind, r, may)
    case Ended => true
  }

  /** Events of other goroutines, and later events of the same, leave an explanation standing. */
  lemma ExplainedStays(es: seq<Event>, e: Event, i: nat, kind: Kind, r: Reply, may: bool)
    requires e.PullEnds? || e.ImagesEnd? ==> e.g != i
    ensures NothingRan(es, i) ==> NothingRan(es + [e], i)
    ensures Acted(es, i, kind, r) ==> Acted(es + [e], i, kind, r)
    ensures Replied(es, i, kind, r, may) ==> Replied(es + [e], i, kind, r, may)
  {
    PullStays(es, e, i);
    forall r0 | Acted(es, i, kind, r0)
      ensures Acted(es + [e], i, kind, r0)
    {
    }
    if may && Replied(es, i, kind, r, may) {
      var r0, detected :| Acted(es, i, kind, r0) && DiagnoseAgain(i, detected) in es && Relayed(r0, detected, r);
      assert DiagnoseAgain(i, detected) in es + [e];
    }
  }

  lemma PullStays(es: seq<Event>, e: Event, i: nat)
    requires e.PullEnds? || e.ImagesEnd? ==> e.g != i
    ensures NotPulled(es, i) ==> NotPulled(es + [e], i)
    ensures ImagesNotChecked(es, i) ==> ImagesNotChecked(es + [e], i)
    ensures forall result | PullTold(es, i, result) :: PullTold(es + [e], i, result)
  {
    forall result | PullTold(es, i, result)
      ensures PullTold(es + [e], i, result)
    {
      if result == Failure {
        var code :| code != 0 && PullEnds(i, code) in es;
        assert PullEnds(i, code) in es + [e];
      }
    }
  }

  lemma OwnStepExplained(es: seq<Event>, s: State, e: Event)
    requires Enabled(s, e) && !e.Spawn? && Explained(es, e.g, s.gs[e.g])
    ensures Explained(es + [e], e.g, Moved(s, e))
  {
    var i, g, g' := e.g, s.gs[e.g], Moved(s, e);
    assert e in es + [e];
    match e
    case PullEnds(_, code) =>
      assert PullTold(es + [e], i, if code == 0 then Success else Failure);
      assert RunUpgrade(i, Some(g.pc.image)) in es + [e];
    case ImagesEnd(_, _, _) => assert RunImages(i) in es + [e];
    case ReleasePull(_) =>
      PullStays(es, e, i);
      assert RunUpgrade(i, Some(g.pc.image)) in es + [e];
    case DiagnoseAgain(_, detected) =>
      ExplainedStays(es, e, i, g.kind, g.pc.reply, true);
      assert Relayed(g.pc.reply, detected, g'.pc.reply);
    case SendReply(_) => ExplainedStays(es, e, i, g.kind, g.pc.reply, g.pc.mayRestart);
    case _ => PullStays(es, e, i);
  }

  lemma OtherStepExplained(es: seq<Event>, e: Event, i: nat, g: Goroutine)
    requires Explained(es, i, g) && (!e.Spawn? ==> e.g != i)
    ensures Explained(es + [e], i, g)
  {
    PullStays(es, e, i);
    match g.pc
    case Pulling(image) => assert RunUpgrade(i, Some(image)) in es + [e];
    case Pulled(image, _) => assert RunUpgrade(i, Some(image)) in es + [e];
    case CheckingImages => assert RunImages(i) in es + [e];
    case Ran(r) => ExplainedStays(es, e, i, g.kind, r, true);
    case Replying(r, may) => ExplainedStays(es, e, i, g.kind, r, may);
    case Sent(r, may) => ExplainedStays(es, e, i, g.kind, r, may);
    case _ =>
  }

  lemma {:induction false} Prefix(s: State, events: seq<Event>, e: Event)
    requires Valid(s, events + [e])
    ensures Valid(s, events) && Enabled(After(s, events), e)
    ensures After(s, events + [e]) == Apply(After(s, events), e)
    decreases |events|
  {
    var longer := events + [e];
    if events == [] {
      assert longer[1..] == [];
    } else {
      assert longer[1..] == events[1..] + [e];
      Prefix(Apply(s, events[0]), events[1..], e);
    }
  }

  lemma {:induction false} ExplainedAlways(events: seq<Event>)
    requires Valid(Init(), events)
    ensures forall i: nat | i < |After(Init(), events).gs| :: Explained(events, i, After(Init(), events).gs[i])
  {
    hide Explained, Moved;
    if events != [] {
      var n := |events| - 1;
      var es, e := events[..n], events[n];
      assert events == es + [e];
      Prefix(Init(), es, e);
      ExplainedAlways(es);
      var s := After(Init(), es);
      forall i: nat | i < |Apply(s, e).gs|
        ensures Explained(events, i, Apply(s, e).gs[i])
      {
        if !e.Spawn? && e.g == i {
          OwnStepExplained(es, s, e);
        } else if i < |s.gs| {
          OtherStepExplained(es, e, i, s.gs[i]);
        } else {
          EventsInRange(Init(), es);
          NewIsExplained(events, i, e.kind);
        }
      }
    }
  }

  lemma NewIsExplained(events: seq<Event>, i: nat, kind: Kind)
    requires forall e | e in events && !e.Spawn? :: e.g < i
    ensures Explained(events, i, Goroutine(kind, Starting, false, false))
  {
  }

  /** In every run a reply about to be sent, or sent, says what the step's own action answered. */
  lemma RepliesAreExplained(events: seq<Event>, i: nat)
    requires Valid(Init(), events) && i < |After(Init(), events).gs|
    ensures var g := After(Init(), events).gs[i];
            g.pc.Replying? || g.pc.Sent? ==> Replied(events, i, g.kind, g.pc.reply, g.pc.mayRestart)
  {
    ExplainedAlways(events);
  }
}
